/**
 The meaning of a record stream: the bytes after the prologue, parsed in one go. Every
 reader is proved to compute this parse, and the format's laws are proved about it.
 */
module Stream {
  import opened Bytes
  import opened Events
  import opened Framing
  import opened Sequences
  import opened Wrappers

  // ------------------------------------------------------------- the parse

  /** The whole records at the front of the stream, in order. */
  function Frames(bs: seq<byte>): seq<Frame>
    decreases |bs|
  {
    match FrameOne(bs)
    case Ok(_, size) => [Front(bs)] + Frames(bs[size..])
    case _ => []
  }

  /** What is left behind them. */
  function Tail(bs: seq<byte>): seq<byte>
    decreases |bs|
  {
    match FrameOne(bs)
    case Ok(_, size) => Tail(bs[size..])
    case _ => bs
  }

  /** The stream stops on a corrupt frame rather than at a clean end. */
  predicate EndsCorrupt(bs: seq<byte>) {
    FrameOne(Tail(bs)).Corrupt?
  }

  function EventsOf(frames: seq<Frame>): seq<Event> {
    if frames == [] then []
    else match RouteRecord(frames[0])
      case Emit(e) => [e] + EventsOf(frames[1..])
      case _ => EventsOf(frames[1..])
  }

  /** How many of the frames are skipped for the given reason. */
  function SkipsOf(frames: seq<Frame>, reason: Routed): nat {
    if frames == [] then 0
    else (if RouteRecord(frames[0]) == reason then 1 else 0) + SkipsOf(frames[1..], reason)
  }

  function CountersOf(frames: seq<Frame>): Counters {
    Counters(|frames|, |EventsOf(frames)|, SkipsOf(frames, SkipNonMbo), SkipsOf(frames, SkipMalformed))
  }

  /** The bytes of a list of frames. */
  function Concat(frames: seq<Frame>): seq<byte> {
    if frames == [] then [] else frames[0] + Concat(frames[1..])
  }

  // -------------------------------------------------- lists of frames append

  lemma ConcatCons(f: Frame, frames: seq<Frame>)
    ensures Concat([f] + frames) == f + Concat(frames)
  {
    assert ([f] + frames)[1..] == frames;
  }

  lemma {:induction false} ConcatAppend(a: seq<Frame>, b: seq<Frame>)
    ensures Concat(a + b) == Concat(a) + Concat(b)
  {
    if a == [] {
      EmptyPlus(b);
    } else {
      RestOfPlus(a, b);
      ConcatAppend(a[1..], b);
      PlusAssoc(a[0], Concat(a[1..]), Concat(b));
    }
  }

  lemma {:induction false} EventsAppend(a: seq<Frame>, b: seq<Frame>)
    ensures EventsOf(a + b) == EventsOf(a) + EventsOf(b)
  {
    if a == [] {
      EmptyPlus(b);
    } else {
      RestOfPlus(a, b);
      EventsAppend(a[1..], b);
      PlusAssoc(EventsOf(a[..1]), EventsOf(a[1..]), EventsOf(b));
    }
  }

  lemma {:induction false} SkipsAppend(a: seq<Frame>, b: seq<Frame>, reason: Routed)
    ensures SkipsOf(a + b, reason) == SkipsOf(a, reason) + SkipsOf(b, reason)
  {
    if a == [] {
      EmptyPlus(b);
    } else {
      RestOfPlus(a, b);
      SkipsAppend(a[1..], b, reason);
    }
  }

  lemma PlusByFields(a: Counters, b: Counters, sum: Counters)
    requires sum.records == a.records + b.records && sum.events == a.events + b.events
    requires sum.skippedNonMbo == a.skippedNonMbo + b.skippedNonMbo
    requires sum.skippedMalformed == a.skippedMalformed + b.skippedMalformed
    ensures sum == a.Plus(b)
  {
  }

  lemma CountersAppend(a: seq<Frame>, b: seq<Frame>)
    ensures CountersOf(a + b) == CountersOf(a).Plus(CountersOf(b))
  {
    EventsAppend(a, b);
    SkipsAppend(a, b, SkipNonMbo);
    SkipsAppend(a, b, SkipMalformed);
    PlusByFields(CountersOf(a), CountersOf(b), CountersOf(a + b));
  }

  lemma SingleFrame(f: Frame)
    ensures Concat([f]) == f
    ensures EventsOf([f]) == Listed(EventOf(RouteRecord(f)))
    ensures CountersOf([f]) == CountOf(RouteRecord(f))
  {
    var one := [f];
    assert one[0] == f && one[1..] == [];
    EmptyPlus(f);
    match RouteRecord(f)
    case Emit(e) =>
      assert EventsOf(one) == [e] + [];
      assert SkipsOf(one, SkipNonMbo) == 0 && SkipsOf(one, SkipMalformed) == 0;
    case SkipNonMbo =>
      assert EventsOf(one) == [];
    case SkipMalformed =>
      assert EventsOf(one) == [];
  }

  /** Nothing framed goes uncounted, and nothing is counted twice. */
  lemma {:induction false} CountersAddUp(frames: seq<Frame>)
    ensures var c := CountersOf(frames);
            c.records == c.events + c.skippedNonMbo + c.skippedMalformed
  {
    if frames != [] {
      CountersAddUp(frames[1..]);
    }
  }

  /** A record takes at least four bytes, so `n` bytes hold at most `n / 4` records. */
  lemma {:induction false} FourBytesPerRecord(frames: seq<Frame>)
    ensures 4 * |frames| <= |Concat(frames)|
  {
    if frames != [] {
      FourBytesPerRecord(frames[1..]);
    }
  }

  // ------------------------------------------- the parse is the only framing

  /** `frames` then `tail` is a way to cut `bs`, with nothing more to frame in the tail. */
  predicate IsFraming(bs: seq<byte>, frames: seq<Frame>, tail: seq<byte>) {
    Concat(frames) + tail == bs && !FrameOne(tail).Ok?
  }

  lemma ParseStep(f: Frame, rest: seq<byte>)
    ensures Frames(f + rest) == [f] + Frames(rest)
    ensures Tail(f + rest) == Tail(rest)
  {
    FrameOneFindsFrame(f + rest, f, rest);
  }

  lemma {:induction false} FramesBehind(frames: seq<Frame>, rest: seq<byte>)
    ensures Frames(Concat(frames) + rest) == frames + Frames(rest)
  {
    if frames == [] {
      EmptyPlus(rest);
      EmptyPlus(Frames(rest));
    } else {
      FramesBehind(frames[1..], rest);
      ParseStep(frames[0], Concat(frames[1..]) + rest);
      PlusAssoc(frames[0], Concat(frames[1..]), rest);
      ConsAssoc(frames, Frames(rest));
    }
  }

  lemma {:induction false} TailBehind(frames: seq<Frame>, rest: seq<byte>)
    ensures Tail(Concat(frames) + rest) == Tail(rest)
  {
    if frames == [] {
      EmptyPlus(rest);
    } else {
      TailBehind(frames[1..], rest);
      ParseStep(frames[0], Concat(frames[1..]) + rest);
      PlusAssoc(frames[0], Concat(frames[1..]), rest);
    }
  }

  /** Frames in front of any bytes are framed one by one and the parse goes on behind them. */
  lemma ParseBehindFrames(frames: seq<Frame>, rest: seq<byte>)
    ensures Frames(Concat(frames) + rest) == frames + Frames(rest)
    ensures Tail(Concat(frames) + rest) == Tail(rest)
  {
    FramesBehind(frames, rest);
    TailBehind(frames, rest);
  }

  /** Every byte string has exactly one framing, and the parse finds it. */
  lemma {:induction false} ParseIsTheFraming(bs: seq<byte>, frames: seq<Frame>, tail: seq<byte>)
    ensures IsFraming(bs, frames, tail) <==> frames == Frames(bs) && tail == Tail(bs)
  {
    ParseIsAFraming(bs);
    if IsFraming(bs, frames, tail) {
      ParseBehindFrames(frames, tail);
    }
  }

  lemma {:induction false} ParseIsAFraming(bs: seq<byte>)
    ensures IsFraming(bs, Frames(bs), Tail(bs))
    decreases |bs|
  {
    if FrameOne(bs).Ok? {
      var f := Front(bs);
      var behind := bs[|f|..];
      ParseIsAFraming(behind);
      SplitAt(bs, |f|);
      ConcatCons(f, Frames(behind));
      PlusAssoc(f, Concat(Frames(behind)), Tail(behind));
    } else {
      EmptyPlus(bs);
    }
  }

  /** What a stream leaves unread at its end, both ways of ending. */
  lemma LeftoverShape(bs: seq<byte>)
    ensures var t := Tail(bs);
            && (EndsCorrupt(bs) <==> |t| >= 2 && t[0] == 0)
            && (!EndsCorrupt(bs) <==> |t| < 2 || |t| < t[0] as int * 4)
            && (!EndsCorrupt(bs) ==> |t| < MAX_RECORD)
  {
    ParseIsAFraming(bs);
  }

  // ------------------------------------------------------ laws of the format

  /**
   Cutting a stream short only loses a suffix of its frames: events, counters and the
   corruption verdict of the prefix all carry over to the whole.
   */
  lemma TruncationMonotone(prefix: seq<byte>, more: seq<byte>)
    ensures Frames(prefix) <= Frames(prefix + more)
    ensures EventsOf(Frames(prefix)) <= EventsOf(Frames(prefix + more))
    ensures CountersOf(Frames(prefix)).AtMost(CountersOf(Frames(prefix + more)))
    ensures EndsCorrupt(prefix) ==> EndsCorrupt(prefix + more) && Frames(prefix + more) == Frames(prefix)
  {
    var t := Tail(prefix);
    ParseIsAFraming(prefix);
    PlusAssoc(Concat(Frames(prefix)), t, more);
    ParseBehindFrames(Frames(prefix), t + more);
    EventsAppend(Frames(prefix), Frames(t + more));
    CountersAppend(Frames(prefix), Frames(t + more));
    if EndsCorrupt(prefix) {
      FrameOneStable(t, more);
    }
  }

  lemma SkipInList(before: seq<Frame>, skipped: Frame, later: seq<Frame>)
    requires !RouteRecord(skipped).Emit?
    ensures EventsOf(before + [skipped] + later) == EventsOf(before + later)
    ensures CountersOf(before + [skipped] + later) ==
              CountersOf(before + later).Plus(CountOf(RouteRecord(skipped)))
  {
    SingleFrame(skipped);
    EventsAppend(before + [skipped], later);
    EventsAppend(before, [skipped]);
    EventsAppend(before, later);
    EmptyPlus(EventsOf(before));
    forall reason: Routed
      ensures SkipsOf(before + [skipped] + later, reason) ==
                SkipsOf(before + later, reason) + SkipsOf([skipped], reason)
    {
      SkipsAppend(before + [skipped], later, reason);
      SkipsAppend(before, [skipped], reason);
      SkipsAppend(before, later, reason);
    }
    PlusByFields(CountersOf(before + later), CountersOf([skipped]), CountersOf(before + [skipped] + later));
  }

  /**
   A skipped record may be inserted or deleted at any frame boundary: only `records`
   and the counter of its own kind change, each by one.
   */
  lemma SkipNonInterference(before: seq<Frame>, skipped: Frame, after: seq<byte>)
    requires !RouteRecord(skipped).Emit?
    ensures var with := Concat(before) + skipped + after;
            var without := Concat(before) + after;
            && EventsOf(Frames(with)) == EventsOf(Frames(without))
            && Tail(with) == Tail(without)
            && (EndsCorrupt(with) <==> EndsCorrupt(without))
            && CountersOf(Frames(with)) ==
                 CountersOf(Frames(without)).Plus(CountOf(RouteRecord(skipped)))
  {
    assert Concat(before) + skipped + after == Concat(before + [skipped]) + after by {
      ConcatAppend(before, [skipped]);
      SingleFrame(skipped);
    }
    ParseBehindFrames(before + [skipped], after);
    ParseBehindFrames(before, after);
    SkipInList(before, skipped, Frames(after));
  }

  /** Nothing behind the two-byte prefix of the first corrupt frame has any effect. */
  lemma CorruptionAbsorbs(before: seq<Frame>, rtype: byte, junk: seq<byte>)
    ensures var bs := Concat(before) + ([0, rtype] + junk);
            Frames(bs) == before && EndsCorrupt(bs)
  {
    ParseBehindFrames(before, [0, rtype] + junk);
  }

  lemma CorruptPrefix(t: seq<byte>)
    requires FrameOne(t).Corrupt?
    ensures t == [0, t[1]] + t[2..]
  {
  }

  /** A stream ends corrupt exactly when whole records are followed by a zero length byte and one more byte. */
  lemma EndsCorruptIff(bs: seq<byte>)
    ensures EndsCorrupt(bs) <==>
              exists before: seq<Frame>, rtype: byte, junk: seq<byte> ::
                bs == Concat(before) + ([0, rtype] + junk)
  {
    if EndsCorrupt(bs) {
      var t := Tail(bs);
      ParseIsAFraming(bs);
      CorruptPrefix(t);
      assert bs == Concat(Frames(bs)) + ([0, t[1]] + t[2..]);
    }
    forall before: seq<Frame>, rtype: byte, junk: seq<byte>
      | bs == Concat(before) + ([0, rtype] + junk)
      ensures EndsCorrupt(bs)
    {
      CorruptionAbsorbs(before, rtype, junk);
    }
  }

  // ----------------------------------------------------------- one pull

  /** One `next()`: the frames it passes, the event it stops at if any, and what is left. */
  datatype Pulled = Pulled(event: Option<Event>, passed: seq<Frame>, rest: seq<byte>, corrupt: bool)

  function PullEvent(bs: seq<byte>): Pulled
    decreases |bs|
  {
    match FrameOne(bs)
    case NeedMore => Pulled(None, [], bs, false)
    case Corrupt => Pulled(None, [], bs, true)
    case Ok(_, size) =>
      match RouteRecord(Front(bs))
      case Emit(e) => Pulled(Some(e), [Front(bs)], bs[size..], false)
      case _ =>
        var later := PullEvent(bs[size..]);
        later.(passed := [Front(bs)] + later.passed)
  }

  lemma PullBehindSkip(f: Frame, later: Pulled)
    requires !RouteRecord(f).Emit?
    ensures EventsOf([f] + later.passed) == EventsOf(later.passed)
    ensures Concat([f] + later.passed) + later.rest == f + (Concat(later.passed) + later.rest)
  {
    SingleFrame(f);
    EventsAppend([f], later.passed);
    EmptyPlus(EventsOf(later.passed));
    ConcatAppend([f], later.passed);
    PlusAssoc(f, Concat(later.passed), later.rest);
  }

  /**
   A pull in terms of the parse: it consumes exactly the frames it passes; it returns
   the stream's first event if there is one, with only skips in front of it; otherwise
   it consumes every frame and reports how the stream ends.
   */
  lemma {:induction false} PullMeaning(bs: seq<byte>)
    ensures var p := PullEvent(bs);
            && bs == Concat(p.passed) + p.rest
            && Frames(bs) == p.passed + Frames(p.rest)
            && Tail(bs) == Tail(p.rest)
            && (match p.event
                case Some(e) => EventsOf(p.passed) == [e] && !p.corrupt && p.passed != []
                case None => EventsOf(p.passed) == [] && p.rest == Tail(bs) && Frames(p.rest) == []
                             && (p.corrupt <==> EndsCorrupt(bs)))
            && (p.event.Some? <==> EventsOf(Frames(bs)) != [])
    decreases |bs|
  {
    if FrameOne(bs).Ok? {
      var size := FrameOne(bs).recordSize;
      var f := Front(bs);
      SplitAt(bs, size);
      SingleFrame(f);
      if !RouteRecord(f).Emit? {
        PullMeaning(bs[size..]);
        PullBehindSkip(f, PullEvent(bs[size..]));
        PlusAssoc([f], PullEvent(bs[size..]).passed, Frames(PullEvent(bs[size..]).rest));
      }
    } else {
      EmptyPlus(bs);
    }
  }

  /** A pull that finds an event stops right behind it. */
  lemma {:induction false} PullStopsAtItsEvent(bs: seq<byte>)
    requires PullEvent(bs).event.Some?
    ensures var p := PullEvent(bs);
            p.passed != [] && RouteRecord(p.passed[|p.passed| - 1]).Emit?
    decreases |bs|
  {
    if !RouteRecord(Front(bs)).Emit? {
      PullStopsAtItsEvent(bs[|Front(bs)|..]);
    }
  }

  /** Once a pull returns nothing, pulling again changes nothing. */
  lemma EndIsStable(bs: seq<byte>)
    requires PullEvent(bs).event.None?
    ensures var p := PullEvent(bs);
            PullEvent(p.rest) == Pulled(None, [], p.rest, p.corrupt)
  {
    PullMeaning(bs);
  }

  // ------------------------------------------------------- a run of pulls

  function Listed(e: Option<Event>): seq<Event> {
    if e.Some? then [e.value] else []
  }

  /**
   Where a reader stands in a stream: it has passed some frames and emitted their events,
   and the rest of the stream lies ahead of it.
   */
  ghost predicate Progress(records: seq<byte>, passed: seq<Frame>, emitted: seq<Event>, rest: seq<byte>, failed: bool)
  {
    && records == Concat(passed) + rest
    && emitted == EventsOf(passed)
    && (failed ==> FrameOne(rest).Corrupt?)
  }

  lemma StartOfStream(records: seq<byte>)
    ensures Progress(records, [], [], records, false)
  {
    EmptyPlus(records);
  }

  /** Passing one frame and emitting its event keeps a reader in step with its stream. */
  lemma PassFrame(records: seq<byte>, passed: seq<Frame>, emitted: seq<Event>, rest: seq<byte>, failed: bool, f: Frame)
    requires Progress(records, passed, emitted, rest, failed)
    requires FrameOne(rest).Ok? && f == Front(rest)
    ensures !failed
    ensures Progress(records, passed + [f], emitted + Listed(EventOf(RouteRecord(f))), rest[|f|..], false)
  {
    SplitAt(rest, |f|);
    SingleFrame(f);
    ConcatAppend(passed, [f]);
    EventsAppend(passed, [f]);
    PlusAssoc(Concat(passed), f, rest[|f|..]);
  }

  /** Skips in front of a stream are passed by the pull, whatever comes behind them. */
  lemma {:induction false} PullThroughSkips(skips: seq<Frame>, rest: seq<byte>)
    requires EventsOf(skips) == []
    ensures var p := PullEvent(rest);
            PullEvent(Concat(skips) + rest) == Pulled(p.event, skips + p.passed, p.rest, p.corrupt)
  {
    if skips == [] {
      EmptyPlus(rest);
      EmptyPlus(PullEvent(rest).passed);
    } else {
      PullThroughSkips(skips[1..], rest);
      PlusAssoc(skips[0], Concat(skips[1..]), rest);
      FrameOneFindsFrame(skips[0] + (Concat(skips[1..]) + rest), skips[0], Concat(skips[1..]) + rest);
      ConsAssoc(skips, PullEvent(rest).passed);
    }
  }

  /** A reader that went from `rest` to `now` without emitting is in the middle of one pull. */
  lemma MidPull(records: seq<byte>, before: seq<Frame>, passed: seq<Frame>, emitted: seq<Event>,
                rest: seq<byte>, now: seq<byte>, failed: bool)
    requires Progress(records, before, emitted, rest, failed)
    requires Progress(records, passed, emitted, now, failed)
    requires before <= passed
    ensures var p := PullEvent(now);
            PullEvent(rest) == Pulled(p.event, passed[|before|..] + p.passed, p.rest, p.corrupt)
  {
    assert passed[..|before|] == before;
    SplitAt(passed, |before|);
    MidPullBy(records, before, passed[|before|..], emitted, rest, now, failed);
  }

  lemma MidPullBy(records: seq<byte>, before: seq<Frame>, done: seq<Frame>, emitted: seq<Event>,
                  rest: seq<byte>, now: seq<byte>, failed: bool)
    requires Progress(records, before, emitted, rest, failed)
    requires Progress(records, before + done, emitted, now, failed)
    ensures var p := PullEvent(now);
            PullEvent(rest) == Pulled(p.event, done + p.passed, p.rest, p.corrupt)
  {
    EventsAppend(before, done);
    EmptyPlus(EventsOf(before));
    PlusCancels(EventsOf(before), EventsOf(done), []);
    ConcatAppend(before, done);
    PlusAssoc(Concat(before), Concat(done), now);
    PlusCancels(Concat(before), rest, Concat(done) + now);
    PullThroughSkips(done, now);
  }

  /** The pull ends at a record that emits. */
  lemma PullEmits(records: seq<byte>, before: seq<Frame>, passed: seq<Frame>, emitted: seq<Event>,
                  rest: seq<byte>, now: seq<byte>, failed: bool, f: Frame)
    requires Progress(records, before, emitted, rest, failed)
    requires Progress(records, passed, emitted, now, failed)
    requires before <= passed
    requires FrameOne(now).Ok? && f == Front(now) && RouteRecord(f).Emit?
    ensures var p := PullEvent(rest);
            && p.event == EventOf(RouteRecord(f)) && p.rest == now[|f|..] && !p.corrupt
            && before + p.passed == passed + [f]
  {
    MidPull(records, before, passed, emitted, rest, now, failed);
    assert passed[..|before|] == before;
    SplitAt(passed, |before|);
    PlusAssoc(before, passed[|before|..], [f]);
  }

  /** The pull ends because no whole record is left. */
  lemma PullStops(records: seq<byte>, before: seq<Frame>, passed: seq<Frame>, emitted: seq<Event>,
                  rest: seq<byte>, now: seq<byte>, failed: bool)
    requires Progress(records, before, emitted, rest, failed)
    requires Progress(records, passed, emitted, now, failed)
    requires before <= passed
    requires !FrameOne(now).Ok?
    ensures var p := PullEvent(rest);
            && p.event == None && p.rest == now && (p.corrupt <==> FrameOne(now).Corrupt?)
            && before + p.passed == passed
    ensures emitted + [] == emitted
  {
    MidPull(records, before, passed, emitted, rest, now, failed);
    EmptyPlus(passed[|before|..]);
    assert passed[..|before|] == before;
    SplitAt(passed, |before|);
  }

  /** A reader has passed at most a quarter as many frames as its stream has bytes. */
  lemma FramesPassedBound(records: seq<byte>, passed: seq<Frame>, emitted: seq<Event>, rest: seq<byte>, failed: bool)
    requires Progress(records, passed, emitted, rest, failed)
    ensures 4 * |passed| <= |records|
  {
    FourBytesPerRecord(passed);
  }

  /** Where a reader stands determines everything it has done: nothing depends on how it got there. */
  lemma ProgressIsTheParse(records: seq<byte>, passed: seq<Frame>, emitted: seq<Event>, rest: seq<byte>, failed: bool)
    requires Progress(records, passed, emitted, rest, failed)
    ensures Frames(records) == passed + Frames(rest)
    ensures Tail(records) == Tail(rest)
    ensures EventsOf(Frames(records)) == emitted + EventsOf(Frames(rest))
    ensures failed ==> EndsCorrupt(records) && passed == Frames(records)
  {
    ParseBehindFrames(passed, rest);
    EventsAppend(passed, Frames(rest));
    EmptyPlus(passed);
  }

  /** A reader with no whole record ahead of it has done everything the parse says, and knows how it ended. */
  lemma AtTheEnd(records: seq<byte>, passed: seq<Frame>, emitted: seq<Event>, rest: seq<byte>, failed: bool)
    requires Progress(records, passed, emitted, rest, failed)
    requires !FrameOne(rest).Ok?
    ensures passed == Frames(records) && emitted == EventsOf(Frames(records)) && rest == Tail(records)
    ensures EndsCorrupt(records) <==> FrameOne(rest).Corrupt?
  {
    ProgressIsTheParse(records, passed, emitted, rest, failed);
    EmptyPlus(passed);
  }

  /** What one pull leaves ahead: less than before if it found an event, and no whole record otherwise. */
  lemma PullLeaves(bs: seq<byte>)
    ensures var p := PullEvent(bs);
            && |p.rest| <= |bs|
            && (p.event.Some? ==> |p.rest| < |bs|)
            && (p.event.None? ==> !FrameOne(p.rest).Ok? && (p.corrupt <==> FrameOne(p.rest).Corrupt?))
  {
    PullMeaning(bs);
    FourBytesPerRecord(PullEvent(bs).passed);
  }

  /** What call number `k` of a drain returns: event number `k`, and nothing once there are no more. */
  function KthResult(events: seq<Event>, k: nat): Option<Event> {
    if k < |events| then Some(events[k]) else None
  }

  /** The frames up to and including event number `k`, and all of them if there is no such event. */
  function FramesThrough(frames: seq<Frame>, k: nat): seq<Frame> {
    if frames == [] then []
    else if !RouteRecord(frames[0]).Emit? then [frames[0]] + FramesThrough(frames[1..], k)
    else if k == 0 then [frames[0]]
    else [frames[0]] + FramesThrough(frames[1..], k - 1)
  }

  /** Frames that end with event number `k` are the frames through it, whatever comes behind them. */
  lemma {:induction false} FramesThroughEvent(frames: seq<Frame>, more: seq<Frame>, k: nat)
    requires frames != [] && RouteRecord(frames[|frames| - 1]).Emit?
    requires |EventsOf(frames)| == k + 1
    ensures FramesThrough(frames + more, k) == frames
  {
    RestOfPlus(frames, more);
    if |frames| > 1 {
      var emits := RouteRecord(frames[0]).Emit?;
      LastEventCounts(frames[1..]);
      FramesThroughEvent(frames[1..], more, if emits then k - 1 else k);
    }
  }

  lemma {:induction false} LastEventCounts(frames: seq<Frame>)
    requires frames != [] && RouteRecord(frames[|frames| - 1]).Emit?
    ensures |EventsOf(frames)| >= 1
  {
    if |frames| > 1 {
      LastEventCounts(frames[1..]);
    }
  }

  /** With at most `k` events there is no event number `k`. */
  lemma {:induction false} FramesThroughAll(frames: seq<Frame>, k: nat)
    requires |EventsOf(frames)| <= k
    ensures FramesThrough(frames, k) == frames
  {
    if frames != [] {
      FramesThroughAll(frames[1..], if RouteRecord(frames[0]).Emit? then k - 1 else k);
    }
  }

  /** Wherever a reader stands, its next pull returns the event that follows the ones it has emitted. */
  lemma NextIsTheFollowingEvent(records: seq<byte>, passed: seq<Frame>, emitted: seq<Event>, rest: seq<byte>,
                                failed: bool)
    requires Progress(records, passed, emitted, rest, failed)
    ensures PullEvent(rest).event == KthResult(EventsOf(Frames(records)), |emitted|)
  {
    ProgressIsTheParse(records, passed, emitted, rest, failed);
    PullMeaning(rest);
    EventsAppend(PullEvent(rest).passed, Frames(PullEvent(rest).rest));
  }

  /** A pull leaves the failure flag set exactly when it found nothing and the stream ends corrupt. */
  lemma FlagTellsTheEnd(records: seq<byte>, passed: seq<Frame>, emitted: seq<Event>, rest: seq<byte>, failed: bool)
    requires Progress(records, passed, emitted, rest, failed)
    ensures var p := PullEvent(rest);
            failed || p.corrupt <==> p.event.None? && EndsCorrupt(records)
  {
    ProgressIsTheParse(records, passed, emitted, rest, failed);
    PullMeaning(rest);
  }

  /** After its next pull, a reader has passed exactly the frames through the event following those emitted. */
  lemma NextPassesThrough(records: seq<byte>, passed: seq<Frame>, emitted: seq<Event>, rest: seq<byte>, failed: bool)
    requires Progress(records, passed, emitted, rest, failed)
    ensures passed + PullEvent(rest).passed == FramesThrough(Frames(records), |emitted|)
  {
    var p := PullEvent(rest);
    var now := passed + p.passed;
    ProgressIsTheParse(records, passed, emitted, rest, failed);
    PullMeaning(rest);
    EventsAppend(passed, p.passed);
    PlusAssoc(passed, p.passed, Frames(p.rest));
    if p.event.Some? {
      PullStopsAtItsEvent(rest);
      FramesThroughEvent(now, Frames(p.rest), |emitted|);
    } else {
      EmptyPlus(now);
      EmptyPlus(emitted);
      FramesThroughAll(now, |emitted|);
    }
  }
}
