/** The ingest counters a reader keeps, and the step that counts one record. */
module Stats {
  import opened Bytes
  import opened Events
  import opened Framing
  import opened Stream
  import opened Wrappers

  /** Four `u64` fields, updated in place. */
  class IngestStats {
    var records: u64
    var events: u64
    var skippedNonMbo: u64
    var skippedMalformed: u64

    constructor ()
      ensures Counts([])
    {
      records, events, skippedNonMbo, skippedMalformed := 0, 0, 0, 0;
    }

    /** The counters say what these frames amount to. */
    ghost predicate Counts(frames: seq<Frame>)
      reads this
    {
      && records == |frames|
      && events == |EventsOf(frames)|
      && skippedNonMbo == SkipsOf(frames, SkipNonMbo)
      && skippedMalformed == SkipsOf(frames, SkipMalformed)
    }

    function Value(): Counters
      reads this
    {
      Counters(records, events, skippedNonMbo, skippedMalformed)
    }
  }

  /** Counts a routed record and yields its event, if it has one. The counters wrap like any `u64`. */
  method Tally(stats: IngestStats, routed: Routed) returns (e: Option<Event>)
    modifies stats
    ensures e == EventOf(routed)
    ensures stats.records == Increment(old(stats.records))
    ensures stats.events == if routed.Emit? then Increment(old(stats.events)) else old(stats.events)
    ensures stats.skippedNonMbo ==
              if routed.SkipNonMbo? then Increment(old(stats.skippedNonMbo)) else old(stats.skippedNonMbo)
    ensures stats.skippedMalformed ==
              if routed.SkipMalformed? then Increment(old(stats.skippedMalformed)) else old(stats.skippedMalformed)
  {
    stats.records := Increment(stats.records);
    match routed
    case Emit(event) =>
      stats.events := Increment(stats.events);
      e := Some(event);
    case SkipNonMbo =>
      stats.skippedNonMbo := Increment(stats.skippedNonMbo);
      e := None;
    case SkipMalformed =>
      stats.skippedMalformed := Increment(stats.skippedMalformed);
      e := None;
  }

  lemma SkipsOneMore(frames: seq<Frame>, f: Frame, reason: Routed)
    ensures SkipsOf(frames + [f], reason) ==
              SkipsOf(frames, reason) + if RouteRecord(f) == reason then 1 else 0
  {
    SkipsAppend(frames, [f], reason);
    assert [f][0] == f && [f][1..] == [];
  }

  /** What one more frame does to the counts. */
  lemma CountOneMore(frames: seq<Frame>, f: Frame)
    ensures |EventsOf(frames + [f])| == |EventsOf(frames)| + if RouteRecord(f).Emit? then 1 else 0
    ensures SkipsOf(frames + [f], SkipNonMbo) ==
              SkipsOf(frames, SkipNonMbo) + if RouteRecord(f).SkipNonMbo? then 1 else 0
    ensures SkipsOf(frames + [f], SkipMalformed) ==
              SkipsOf(frames, SkipMalformed) + if RouteRecord(f).SkipMalformed? then 1 else 0
    ensures |EventsOf(frames)| <= |frames|
    ensures SkipsOf(frames, SkipNonMbo) <= |frames| && SkipsOf(frames, SkipMalformed) <= |frames|
  {
    EventsAppend(frames, [f]);
    SingleFrame(f);
    SkipsOneMore(frames, f, SkipNonMbo);
    SkipsOneMore(frames, f, SkipMalformed);
    CountersAddUp(frames);
  }

  /** `Tally` on counters that are too small to wrap. */
  method TallyExactly(stats: IngestStats, routed: Routed) returns (e: Option<Event>)
    requires stats.records < U64_END - 1 && stats.events < U64_END - 1
    requires stats.skippedNonMbo < U64_END - 1 && stats.skippedMalformed < U64_END - 1
    modifies stats
    ensures e == EventOf(routed)
    ensures stats.records == old(stats.records) + 1
    ensures stats.events == old(stats.events) + if routed.Emit? then 1 else 0
    ensures stats.skippedNonMbo == old(stats.skippedNonMbo) + if routed.SkipNonMbo? then 1 else 0
    ensures stats.skippedMalformed == old(stats.skippedMalformed) + if routed.SkipMalformed? then 1 else 0
  {
    e := Tally(stats, routed);
  }

  /** Routing and counting one more frame. Below 2^64 - 1 frames no counter wraps. */
  method TallyFrame(stats: IngestStats, f: Frame, ghost passed: seq<Frame>) returns (e: Option<Event>)
    requires stats.Counts(passed) && |passed| < U64_END - 1
    modifies stats
    ensures stats.Counts(passed + [f])
    ensures e == EventOf(RouteRecord(f))
  {
    CountOneMore(passed, f);
    e := TallyExactly(stats, RouteRecord(f));
  }
}
