/**
 The claim the two readers stand on: over the same file they cannot be told apart, at any
 call, for any chunk size and any way the source cuts its reads short.
 */
module Parity {
  import opened Bytes
  import opened Events
  import opened Framing
  import opened MappedFile
  import opened MmapReader
  import opened Prologue
  import opened Stream
  import opened StreamingReader
  import opened Wrappers

  /**
   The simulation: both readers are over the same file, have passed the same frames, and
   what the one holds or has not read yet is what the other has mapped from its cursor on.
   */
  ghost predicate InLockstep(a: DbnReader, b: MmapDbnReader)
    reads a, a.source, a.assembler, a.assembler.buf, a.scratch, a.stats
    reads b, b.file, b.file.space, b.file.data, b.stats
  {
    && a.Valid() && b.Valid()
    && ({a} + a.Parts()) !! ({b} + b.Parts())
    && a.File() == b.File()
    && a.Rest() == b.Rest()
    && a.Passed() == b.passed
    && a.emitted == b.emitted
    && a.failed == b.failed
  }

  /** In lockstep, the readers' versions and counters are the same too. */
  lemma LockstepMeansIndistinguishable(a: DbnReader, b: MmapDbnReader)
    requires InLockstep(a, b)
    ensures a.version == b.version == SUPPORTED_VERSION
    ensures a.stats.Value() == b.stats.Value() == CountersOf(a.Passed())
  {
  }

  // ---------------------------------------------------------------- opening

  /** Opens the streaming reader beside a mapped one that stands at the start of the same file. */
  method OpenBeside(b: MmapDbnReader, contents: seq<byte>, chunkSize: nat) returns (a: DbnReader)
    requires b.Valid() && b.File() == contents && b.Rest() == Records(contents)
    requires b.passed == [] && b.emitted == [] && !b.failed
    requires chunkSize >= 1
    ensures InLockstep(a, b) && a.emitted == []
    ensures fresh(a) && fresh(a.Parts())
  {
    var attempt := DbnReader.Open(contents, chunkSize);
    a := attempt.value;
  }

  /** Opening both readers: both succeed, in lockstep, or both refuse for the same reason. */
  method OpenBoth(space: AddressSpace, contents: seq<byte>, chunkSize: nat)
    returns (a: Result<DbnReader, PrologueError>, b: Result<MmapDbnReader, PrologueError>)
    requires space.Valid()
    requires |contents| < U64_END
    requires chunkSize >= 1
    modifies space
    ensures a.Success? <==> IsAccepted(contents)
    ensures b.Success? <==> IsAccepted(contents)
    ensures a.Failure? ==> a == Failure(a.error) && ReadPrologue(contents) == Failure(a.error)
    ensures a.Failure? ==> b == Failure(a.error) && space.live == old(space.live)
    ensures a.Success? ==>
              && InLockstep(a.value, b.value) && a.value.File() == contents
              && fresh(a.value) && fresh(a.value.Parts()) && fresh(b.value) && fresh(b.value.stats)
              && a.value.emitted == []
  {
    b := MmapDbnReader.Open(space, contents);
    if b.Failure? {
      a := DbnReader.Open(contents, chunkSize);
    } else {
      var reader := OpenBeside(b.value, contents, chunkSize);
      a := Success(reader);
    }
  }

  // ---------------------------------------------------------------- one call

  /** The streaming reader is one pull ahead. */
  ghost predicate OneAhead(a: DbnReader, b: MmapDbnReader, p: Pulled)
    reads a, a.source, a.assembler, a.assembler.buf, a.scratch, a.stats
    reads b, b.file, b.file.space, b.file.data, b.stats
  {
    && a.Valid() && b.Valid()
    && ({a} + a.Parts()) !! ({b} + b.Parts())
    && a.File() == b.File()
    && p == PullEvent(b.Rest())
    && a.Rest() == p.rest
    && a.Passed() == b.passed + p.passed
    && a.emitted == b.emitted + Listed(p.event)
    && a.failed == (b.failed || p.corrupt)
  }

  method NextStreaming(a: DbnReader, b: MmapDbnReader) returns (e: Option<Event>)
    requires InLockstep(a, b)
    modifies a, a.Parts()
    ensures OneAhead(a, b, PullEvent(b.Rest())) && e == PullEvent(b.Rest()).event
    ensures a.assembler.buf == old(a.assembler.buf) || fresh(a.assembler.buf)
  {
    e := a.Next();
    assert b.Valid() == old(b.Valid());
    assert a.Parts() <= old(a.Parts()) + {a.assembler.buf};
    assert a !in b.Parts() && a.Parts() !! {b} + b.Parts();
  }

  method NextMapped(a: DbnReader, b: MmapDbnReader, ghost p: Pulled) returns (e: Option<Event>)
    requires OneAhead(a, b, p)
    modifies b, b.stats
    ensures InLockstep(a, b) && e == p.event
    ensures a.emitted == old(a.emitted)
  {
    e := b.Next();
    assert a.Valid() == old(a.Valid());
  }

  /** What the next pull of a reader is, in terms of the frames and the end of its file. */
  ghost predicate IsCall(p: Pulled, k: nat, passed: seq<Frame>, failed: bool, frames: seq<Frame>, corrupt: bool) {
    && p.event == KthResult(EventsOf(frames), k)
    && passed + p.passed == FramesThrough(frames, k)
    && (failed || p.corrupt <==> p.event.None? && corrupt)
  }

  lemma NextPullIsTheCall(a: DbnReader)
    requires a.Valid()
    ensures var records := Records(a.File());
            IsCall(PullEvent(a.Rest()), |a.emitted|, a.Passed(), a.failed, Frames(records), EndsCorrupt(records))
  {
    NextIsTheFollowingEvent(Records(a.File()), a.Passed(), a.emitted, a.Rest(), a.failed);
    NextPassesThrough(Records(a.File()), a.Passed(), a.emitted, a.Rest(), a.failed);
    FlagTellsTheEnd(Records(a.File()), a.Passed(), a.emitted, a.Rest(), a.failed);
  }

  /** One call on each: both return what the pull finds, and stay in lockstep. */
  method NextOnBoth(a: DbnReader, b: MmapDbnReader, ghost p: Pulled)
    returns (fromA: Option<Event>, fromB: Option<Event>)
    requires InLockstep(a, b) && p == PullEvent(a.Rest())
    modifies a, a.Parts(), b, b.stats
    ensures InLockstep(a, b)
    ensures a.assembler.buf == old(a.assembler.buf) || fresh(a.assembler.buf)
    ensures fromA == fromB == p.event
    ensures a.Passed() == old(a.Passed()) + p.passed
    ensures a.emitted == old(a.emitted) + Listed(fromA)
    ensures a.failed == (old(a.failed) || p.corrupt)
  {
    fromA := NextStreaming(a, b);
    fromB := NextMapped(a, b, p);
  }

  // --------------------------------------------------------------- whole runs

  /** What a consumer sees of a reader after a call. */
  datatype Observed = Observed(event: Option<Event>, failed: bool, version: byte, counters: Counters)

  /**
   What call number `k` shows over a file with these frames and this end: event number `k`,
   with the counts of the frames through it; once there are no more, nothing, with the
   counts of all frames and the flag saying whether the file ends corrupt.
   */
  function Call(k: nat, frames: seq<Frame>, corrupt: bool): Observed {
    Observed(KthResult(EventsOf(frames), k), k >= |EventsOf(frames)| && corrupt, SUPPORTED_VERSION,
             CountersOf(FramesThrough(frames, k)))
  }

  function Calls(k: nat, frames: seq<Frame>, corrupt: bool): (os: seq<Observed>)
    ensures |os| == k
    ensures forall i :: 0 <= i < k ==> os[i] == Call(i, frames, corrupt)
  {
    if k == 0 then [] else Calls(k - 1, frames, corrupt) + [Call(k - 1, frames, corrupt)]
  }

  /** How many events a drain has returned before call number `k`. */
  function ReturnedBefore(k: nat, events: seq<Event>): nat {
    if k < |events| then k else |events|
  }

  lemma CallOfPull(p: Pulled, k: nat, passed: seq<Frame>, failed: bool, frames: seq<Frame>, corrupt: bool)
    requires IsCall(p, ReturnedBefore(k, EventsOf(frames)), passed, failed, frames, corrupt)
    ensures Observed(p.event, failed || p.corrupt, SUPPORTED_VERSION, CountersOf(passed + p.passed)) ==
              Call(k, frames, corrupt)
    ensures ReturnedBefore(k, EventsOf(frames)) + |Listed(p.event)| == ReturnedBefore(k + 1, EventsOf(frames))
  {
    if k >= |EventsOf(frames)| {
      FramesThroughAll(frames, k);
      FramesThroughAll(frames, |EventsOf(frames)|);
    }
  }

  /** Call number `k` on each, with everything a consumer can see afterwards. */
  method ObserveBoth(a: DbnReader, b: MmapDbnReader, k: nat, ghost frames: seq<Frame>, ghost corrupt: bool)
    returns (fromA: Observed, fromB: Observed)
    requires InLockstep(a, b)
    requires frames == Frames(Records(a.File())) && corrupt == EndsCorrupt(Records(a.File()))
    requires |a.emitted| == ReturnedBefore(k, EventsOf(frames))
    modifies a, a.Parts(), b, b.stats
    ensures InLockstep(a, b)
    ensures a.assembler.buf == old(a.assembler.buf) || fresh(a.assembler.buf)
    ensures |a.emitted| == ReturnedBefore(k + 1, EventsOf(frames))
    ensures fromA == fromB == Call(k, frames, corrupt)
  {
    ghost var p := PullEvent(a.Rest());
    NextPullIsTheCall(a);
    CallOfPull(p, k, a.Passed(), a.failed, frames, corrupt);
    var ea, eb := NextOnBoth(a, b, p);
    LockstepMeansIndistinguishable(a, b);
    fromA := Observed(ea, a.failed, a.version, a.stats.Value());
    fromB := Observed(eb, b.failed, b.version, b.stats.Value());
  }

  /** The first `k` calls on both. */
  method RunBoth(a: DbnReader, b: MmapDbnReader, k: nat, ghost frames: seq<Frame>, ghost corrupt: bool)
    returns (fromA: seq<Observed>, fromB: seq<Observed>)
    requires InLockstep(a, b) && a.emitted == []
    requires frames == Frames(Records(a.File())) && corrupt == EndsCorrupt(Records(a.File()))
    modifies a, a.Parts(), b, b.stats
    ensures fromA == fromB == Calls(k, frames, corrupt)
  {
    fromA, fromB := [], [];
    for i := 0 to k
      invariant InLockstep(a, b)
      invariant a.assembler.buf == old(a.assembler.buf) || fresh(a.assembler.buf)
      invariant |a.emitted| == ReturnedBefore(i, EventsOf(frames))
      invariant fromA == fromB == Calls(i, frames, corrupt)
    {
      var oa, ob := ObserveBoth(a, b, i, frames, corrupt);
      fromA, fromB := fromA + [oa], fromB + [ob];
    }
  }

  /**
   Lockstep parity over whole runs: for every file, every chunk size and every `k`, the
   readers refuse alike, and otherwise each of the first `k` calls shows the same on both:
   the events of the file in order, then nothing, however often they are called, and always
   the counts of the frames passed by then.
   */
  method Lockstep(contents: seq<byte>, chunkSize: nat, k: nat)
    returns (refused: Option<PrologueError>, fromA: seq<Observed>, fromB: seq<Observed>)
    requires |contents| < U64_END
    requires chunkSize >= 1
    ensures refused.None? <==> IsAccepted(contents)
    ensures refused.Some? ==> ReadPrologue(contents) == Failure(refused.value)
    ensures refused.None? ==>
              var records := Records(contents);
              fromA == fromB == Calls(k, Frames(records), EndsCorrupt(records))
  {
    var space := new AddressSpace();
    var ra, rb := OpenBoth(space, contents, chunkSize);
    if ra.Failure? {
      return Some(ra.error), [], [];
    }
    refused := None;
    ghost var records := Records(contents);
    fromA, fromB := RunBoth(ra.value, rb.value, k, Frames(records), EndsCorrupt(records));
  }
}
