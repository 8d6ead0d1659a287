/**
 Reading a whole file: what a file means, and that opening either reader and pulling until
 nothing is left comes to exactly that.
 */
module Drain {
  import opened Bytes
  import opened Events
  import opened Framing
  import opened MappedFile
  import opened MmapReader
  import opened Prologue
  import opened Sequences
  import opened Stream
  import opened StreamingReader
  import opened Wrappers

  /** What a consumer ends up with: the events in order, the counters, and the failure flag. */
  datatype Outcome = Outcome(events: seq<Event>, counters: Counters, failed: bool)

  /** The meaning of a record stream, and of a whole file. */
  function StreamMeaning(records: seq<byte>): Outcome {
    Outcome(EventsOf(Frames(records)), CountersOf(Frames(records)), EndsCorrupt(records))
  }

  function Meaning(file: seq<byte>): Result<Outcome, PrologueError> {
    match ReadPrologue(file)
    case Failure(e) => Failure(e)
    case Success(accepted) => Success(StreamMeaning(file[accepted.start..]))
  }

  /** One `next()` of a drain: an event uses some of the stream up, and none means that its end is reached. */
  method PollStreaming(reader: DbnReader) returns (e: Option<Event>)
    requires reader.Valid()
    modifies reader, reader.Parts()
    ensures reader.Valid()
    ensures reader.assembler.buf == old(reader.assembler.buf) || fresh(reader.assembler.buf)
    ensures reader.emitted == old(reader.emitted) + Listed(e)
    ensures |reader.Rest()| <= |old(reader.Rest())|
    ensures e.Some? ==> |reader.Rest()| < |old(reader.Rest())|
    ensures e.None? ==> StreamingAtEnd(reader)
  {
    PullLeaves(reader.Rest());
    e := reader.Next();
  }

  ghost predicate StreamingAtEnd(reader: DbnReader)
    reads reader, reader.source, reader.assembler, reader.assembler.buf, reader.scratch, reader.stats
    requires reader.Valid()
  {
    !FrameOne(reader.Rest()).Ok? && (reader.failed <==> FrameOne(reader.Rest()).Corrupt?)
  }

  /** At its end, a reader has passed every frame and emitted every event there is. */
  lemma StreamingIsDone(reader: DbnReader)
    requires reader.Valid() && StreamingAtEnd(reader)
    ensures var records := Records(reader.File());
            && reader.Passed() == Frames(records) && reader.emitted == EventsOf(Frames(records))
            && reader.Rest() == Tail(records) && (reader.failed <==> EndsCorrupt(records))
  {
    AtTheEnd(Records(reader.File()), reader.Passed(), reader.emitted, reader.Rest(), reader.failed);
  }

  /** Pulls until the streaming reader has nothing more, keeping the events. */
  method CollectStreaming(reader: DbnReader) returns (o: Outcome)
    requires reader.Valid() && reader.emitted == []
    modifies reader, reader.Parts()
    ensures reader.Valid()
    ensures o == StreamMeaning(Records(reader.File()))
  {
    var events: seq<Event> := [];
    var e := PollStreaming(reader);
    EmptyPlus(Listed(e));
    while e.Some?
      invariant reader.Valid()
      invariant reader.assembler.buf == old(reader.assembler.buf) || fresh(reader.assembler.buf)
      invariant reader.emitted == events + Listed(e)
      invariant e.None? ==> StreamingAtEnd(reader)
      decreases |reader.Rest()|, e.Some?
    {
      events := events + [e.value];
      e := PollStreaming(reader);
    }
    EmptyPlus(events);
    StreamingIsDone(reader);
    o := Outcome(events, reader.stats.Value(), reader.failed);
  }

  /** Opening and draining the streaming reader, for any chunk size and any short reads: the file's meaning. */
  method ReadAllStreaming(contents: seq<byte>, chunkSize: nat) returns (r: Result<Outcome, PrologueError>)
    requires |contents| < U64_END
    requires chunkSize >= 1
    ensures r == Meaning(contents)
    ensures ReadPrologue(contents).Failure? ==> r == Failure(ReadPrologue(contents).error)
  {
    var attempt := DbnReader.Open(contents, chunkSize);
    if attempt.Failure? {
      return Failure(attempt.error);
    }
    var o := CollectStreaming(attempt.value);
    return Success(o);
  }

  /** One `next()` of a drain: an event uses some of the stream up, and none means that its end is reached. */
  method PollMapped(reader: MmapDbnReader) returns (e: Option<Event>)
    requires reader.Valid()
    modifies reader, reader.stats
    ensures reader.Valid()
    ensures reader.emitted == old(reader.emitted) + Listed(e)
    ensures |reader.Rest()| <= |old(reader.Rest())|
    ensures e.Some? ==> |reader.Rest()| < |old(reader.Rest())|
    ensures e.None? ==> MappedAtEnd(reader)
  {
    PullLeaves(reader.Rest());
    e := reader.Next();
  }

  ghost predicate MappedAtEnd(reader: MmapDbnReader)
    reads reader, reader.file, reader.file.space, reader.file.data, reader.stats
    requires reader.Valid()
  {
    !FrameOne(reader.Rest()).Ok? && (reader.failed <==> FrameOne(reader.Rest()).Corrupt?)
  }

  /** At its end, a reader has passed every frame and emitted every event there is. */
  lemma MappedIsDone(reader: MmapDbnReader)
    requires reader.Valid() && MappedAtEnd(reader)
    ensures var records := Records(reader.File());
            && reader.passed == Frames(records) && reader.emitted == EventsOf(Frames(records))
            && reader.Rest() == Tail(records) && (reader.failed <==> EndsCorrupt(records))
  {
    AtTheEnd(Records(reader.File()), reader.passed, reader.emitted, reader.Rest(), reader.failed);
  }

  /** Pulls until the mapped reader has nothing more, keeping the events. */
  method CollectMapped(reader: MmapDbnReader) returns (o: Outcome)
    requires reader.Valid() && reader.emitted == []
    modifies reader, reader.stats
    ensures reader.Valid()
    ensures o == StreamMeaning(Records(reader.File()))
  {
    var events: seq<Event> := [];
    var e := PollMapped(reader);
    EmptyPlus(Listed(e));
    while e.Some?
      invariant reader.Valid()
      invariant reader.emitted == events + Listed(e)
      invariant e.None? ==> MappedAtEnd(reader)
      decreases |reader.Rest()|, e.Some?
    {
      events := events + [e.value];
      e := PollMapped(reader);
    }
    EmptyPlus(events);
    MappedIsDone(reader);
    o := Outcome(events, reader.stats.Value(), reader.failed);
  }

  /** Opening and draining the mapped reader: the file's meaning. */
  method ReadAllMapped(contents: seq<byte>) returns (r: Result<Outcome, PrologueError>)
    requires |contents| < U64_END
    ensures r == Meaning(contents)
    ensures ReadPrologue(contents).Failure? ==> r == Failure(ReadPrologue(contents).error)
  {
    var space := new AddressSpace();
    var attempt := MmapDbnReader.Open(space, contents);
    if attempt.Failure? {
      return Failure(attempt.error);
    }
    var o := CollectMapped(attempt.value);
    return Success(o);
  }
}
