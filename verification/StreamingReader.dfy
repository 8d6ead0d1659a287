/**
 The streaming reader: a byte source with short reads, a scratch buffer and a record
 assembler, driven until they yield one event.
 */
module StreamingReader {
  import opened Assembler
  import opened Bytes
  import opened Events
  import opened Framing
  import opened Prologue
  import opened Sequences
  import opened Source
  import opened Stats
  import opened Stream
  import opened Wrappers

  class DbnReader {
    const source: ByteSource
    const assembler: RecordAssembler
    const scratch: array<byte>
    const stats: IngestStats
    var version: byte
    var failed: bool

    ghost var emitted: seq<Event>  // every event returned so far

    /** Every object the reader is made of, besides itself. */
    ghost function Parts(): set<object>
      reads assembler
    {
      {source, assembler, assembler.buf, scratch, stats}
    }

    /** The parts are in order and do not share storage. */
    ghost predicate Wired()
      reads this, source, assembler, assembler.buf, scratch, stats
    {
      && assembler.buf != scratch
      && scratch.Length >= 1
      && source.Valid()
      && assembler.Valid()
    }

    function File(): seq<byte> {
      source.contents
    }

    /** What lies ahead: the bytes held, then the bytes unread. */
    function Rest(): seq<byte>
      reads this, source, assembler, assembler.buf, scratch, stats
      requires Wired()
    {
      assembler.Unconsumed() + source.Remaining()
    }

    /** The frames passed so far. */
    ghost function Passed(): seq<Frame>
      reads this, assembler
    {
      assembler.handed
    }

    /**
     The buffer never outgrows one chunk and the undecided start of a record, and no
     compaction slides more than such a start.
     */
    ghost predicate Bounded()
      reads assembler
    {
      && assembler.size < MAX_RECORD + scratch.Length
      && assembler.slid <= (MAX_RECORD - 1) * assembler.appends
    }

    /** The reader has made progress through `records`, within its bounds. */
    ghost predicate InStream(records: seq<byte>)
      reads this, source, assembler, assembler.buf, scratch, stats
    {
      && Wired()
      && |records| < U64_END
      && Progress(records, Passed(), emitted, Rest(), failed)
      && stats.Counts(Passed())
      && Bounded()
    }

    ghost predicate Valid()
      reads this, source, assembler, assembler.buf, scratch, stats
    {
      && |File()| < U64_END
      && IsAccepted(File()) && version == SUPPORTED_VERSION
      && InStream(Records(File()))
    }

    constructor (contents: seq<byte>, chunkSize: nat)
      requires chunkSize >= 1
      ensures Wired()
      ensures fresh(source) && fresh(assembler) && fresh(assembler.buf) && fresh(scratch) && fresh(stats)
      ensures File() == contents && source.pos == 0 && scratch.Length == chunkSize
      ensures assembler.handed == [] && assembler.size == 0 && assembler.slid == assembler.appends == 0
      ensures stats.Counts([]) && !failed && emitted == []
    {
      source := new ByteSource(contents);
      assembler := new RecordAssembler();
      scratch := new byte[chunkSize];
      stats := new IngestStats();
      version, failed := 0, false;
      emitted := [];
    }

    /** Opens a file: either a reader standing in front of the first record, or the reason for refusing it. */
    static method Open(contents: seq<byte>, chunkSize: nat) returns (r: Result<DbnReader, PrologueError>)
      requires |contents| < U64_END
      requires chunkSize >= 1
      ensures r.Success? <==> IsAccepted(contents)
      ensures r.Failure? ==> ReadPrologue(contents) == Failure(r.error)
      ensures r.Success? ==>
                var reader := r.value;
                && reader.Valid() && fresh(reader) && fresh(reader.Parts()) && reader.File() == contents
                && reader.scratch.Length == chunkSize
                && reader.Rest() == Records(contents) && reader.Passed() == [] && reader.emitted == []
                && !reader.failed
    {
      var reader := new DbnReader(contents, chunkSize);
      var refused := reader.SkipPrologue();
      if refused.Some? {
        return Failure(refused.value);
      }
      EmptyPlus(reader.source.Remaining());
      StartOfStream(Records(contents));
      return Success(reader);
    }

    /** Reads until `dst` is full up to `size` or the source is exhausted. */
    method ReadFully(dst: array<byte>, size: nat) returns (total: nat)
      requires source.Valid()
      requires size <= dst.Length
      modifies source`pos, dst
      ensures source.Valid()
      ensures total == if size < |old(source.Remaining())| then size else |old(source.Remaining())|
      ensures source.pos == old(source.pos) + total
      ensures dst[..total] == old(source.Remaining())[..total]
    {
      total := 0;
      while total < size
        invariant source.Valid()
        invariant total <= size && source.pos == old(source.pos) + total
        invariant dst[..total] == source.contents[old(source.pos)..source.pos]
      {
        ghost var filled, at := dst[..total], source.pos;
        var n := source.Read(dst, total, size);
        if n == 0 {
          break;
        }
        assert dst[..total + n] == dst[..total] + dst[total..total + n];
        assert dst[..total] == filled;
        SlicePlus(source.contents, old(source.pos), at, at + n);
        total := total + n;
      }
    }

    /** Consumes the header and discards the metadata chunk by chunk, without seeking. */
    method SkipPrologue() returns (refused: Option<PrologueError>)
      requires Wired() && source.pos == 0
      modifies this`version, source`pos, scratch
      ensures Wired()
      ensures refused.None? <==> IsAccepted(File())
      ensures refused.Some? ==> ReadPrologue(File()) == Failure(refused.value)
      ensures refused.None? ==>
                version == SUPPORTED_VERSION && source.pos == ReadPrologue(File()).value.start
    {
      var header := new byte[HEADER_SIZE];
      var got := ReadFully(header, HEADER_SIZE);
      if got != HEADER_SIZE {
        return Some(TruncatedHeader);
      }
      RefusalReasons(File());
      assert header[..] == header[..HEADER_SIZE] == File()[..HEADER_SIZE];
      assert header[..][4..8] == File()[4..8];
      PlaceValues(header[..][4..8]);
      if header[0] != 0x44 || header[1] != 0x42 || header[2] != 0x4E {
        return Some(BadMagic);
      }
      version := header[3];
      if version != SUPPORTED_VERSION {
        return Some(UnsupportedVersion);
      }
      refused := SkipMetadata(ReadU32(header[..][4..8]));
    }

    method SkipMetadata(metadataLen: u32) returns (refused: Option<PrologueError>)
      requires source.Valid() && scratch.Length >= 1
      modifies source`pos, scratch
      ensures source.Valid()
      ensures refused == if metadataLen <= |old(source.Remaining())| then None else Some(TruncatedMetadata)
      ensures refused.None? ==> source.pos == old(source.pos) + metadataLen
    {
      var remaining: nat := metadataLen;
      while remaining > 0
        invariant source.Valid() && remaining <= metadataLen
        invariant source.pos == old(source.pos) + (metadataLen - remaining)
      {
        var want := if remaining < scratch.Length then remaining else scratch.Length;
        var got := ReadFully(scratch, want);
        if got != want {
          return Some(TruncatedMetadata);
        }
        remaining := remaining - got;
      }
      return None;
    }

    /** Routes and counts a record just pulled, reading it through its view. */
    method RouteAndTally(view: Span, ghost records: seq<byte>, ghost passed: seq<Frame>, ghost rest: seq<byte>)
      returns (e: Option<Event>)
      requires Wired() && Bounded() && |records| < U64_END
      requires Progress(records, passed, emitted, rest, failed) && stats.Counts(passed)
      requires FrameOne(rest).Ok?
      requires Passed() == passed + [Front(rest)] && Rest() == rest[|Front(rest)|..]
      requires view in assembler.issued && view.InBounds() && view.Bytes() == Front(rest)
      modifies `emitted, stats
      ensures InStream(records)
      ensures e == EventOf(RouteRecord(Front(rest))) && emitted == old(emitted) + Listed(e)
    {
      PassFrame(records, passed, emitted, rest, failed, Front(rest));
      FramesPassedBound(records, passed, emitted, rest, failed);
      e := TallyFrame(stats, assembler.Load(view), passed);
      emitted := emitted + Listed(e);
    }

    /** One turn of the loop: pulls a record, and if there is one routes and counts it. */
    method PullRecord(ghost records: seq<byte>) returns (p: Pull, e: Option<Event>)
      requires InStream(records)
      modifies `emitted, assembler, stats
      ensures InStream(records)
      ensures assembler.buf == old(assembler.buf)
      ensures p.Record? ==>
                && FrameOne(old(Rest())).Ok?
                && e == EventOf(RouteRecord(Front(old(Rest()))))
                && Passed() == old(Passed()) + [Front(old(Rest()))]
                && Rest() == old(Rest())[|Front(old(Rest()))|..]
                && emitted == old(emitted) + Listed(e)
                && |assembler.Unconsumed()| < |old(assembler.Unconsumed())|
      ensures !p.Record? ==> e == None && unchanged(this) && unchanged(assembler) && unchanged(stats)
      ensures p.NeedMore? ==> FrameOne(assembler.Unconsumed()).NeedMore?
      ensures p.Corrupt? ==> FrameOne(Rest()).Corrupt?
    {
      ghost var rest, passed := Rest(), Passed();
      FrontStable(assembler.Unconsumed(), source.Remaining());
      p := assembler.Next();
      e := None;
      if p.Record? {
        e := RouteAndTally(p.record, records, passed, rest);
      } else {
        assert InStream(records) == old(InStream(records));
      }
    }

    /** Reads the next bytes into the scratch buffer. An empty chunk means that there are none. */
    method ReadChunk() returns (chunk: Span)
      requires source.Valid() && scratch.Length >= 1
      modifies source`pos, scratch
      ensures source.Valid()
      ensures chunk.data == scratch && chunk.from == 0 && chunk.to <= scratch.Length
      ensures old(source.Remaining()) == chunk.Bytes() + source.Remaining()
      ensures chunk.to == 0 ==> source.Remaining() == old(source.Remaining()) == []
    {
      ghost var remaining := source.Remaining();
      var n := source.Read(scratch, 0, scratch.Length);
      chunk := Span(scratch, 0, n);
      assert chunk.Bytes() == remaining[..n];
      SplitAt(remaining, n);
    }

    /** Hands a chunk that has been read on to the assembler. */
    method AppendChunk(chunk: Span, ghost records: seq<byte>, ghost rest: seq<byte>)
      requires Wired() && Bounded() && |records| < U64_END
      requires Progress(records, Passed(), emitted, rest, failed) && stats.Counts(Passed())
      requires FrameOne(assembler.Unconsumed()).NeedMore?
      requires chunk.data == scratch && chunk.InBounds()
      requires rest == assembler.Unconsumed() + (chunk.Bytes() + source.Remaining())
      modifies assembler, assembler.buf
      ensures InStream(records)
      ensures assembler.buf == old(assembler.buf) || fresh(assembler.buf)
      ensures Rest() == rest && Passed() == old(Passed())
    {
      PlusAssoc(assembler.Unconsumed(), chunk.Bytes(), source.Remaining());
      assembler.Append(chunk);
    }

    /** Feeds the assembler from the source. Getting nothing means that there is nothing to get. */
    method Refill(ghost records: seq<byte>) returns (n: nat)
      requires InStream(records)
      requires FrameOne(assembler.Unconsumed()).NeedMore?
      modifies source, scratch, assembler, assembler.buf
      ensures InStream(records)
      ensures assembler.buf == old(assembler.buf) || fresh(assembler.buf)
      ensures Rest() == old(Rest()) && Passed() == old(Passed())
      ensures n == 0 ==> FrameOne(Rest()).NeedMore? && source.Remaining() == []
      ensures n > 0 ==> |source.Remaining()| < |old(source.Remaining())|
    {
      ghost var rest := Rest();
      var chunk := ReadChunk();
      n := chunk.to;
      if n == 0 {
        EmptyPlus(assembler.Unconsumed());
      } else {
        AppendChunk(chunk, records, rest);
      }
    }

    /** Pulls the next event, refilling and passing over skipped records as needed. */
    method Next() returns (e: Option<Event>)
      requires Valid()
      modifies this, Parts()
      ensures Valid()
      ensures assembler.buf == old(assembler.buf) || fresh(assembler.buf)
      ensures var p := PullEvent(old(Rest()));
              && e == p.event && Rest() == p.rest
              && Passed() == old(Passed()) + p.passed
              && failed == (old(failed) || p.corrupt)
      ensures emitted == old(emitted) + Listed(e)
      ensures e.None? && !failed ==> source.Remaining() == []
    {
      e := Drive(Records(File()));
    }

    /** The pull loop, from anywhere in the stream. */
    method Drive(ghost records: seq<byte>) returns (e: Option<Event>)
      requires InStream(records)
      modifies `failed, `emitted, source, scratch, assembler, assembler.buf, stats
      ensures InStream(records)
      ensures assembler.buf == old(assembler.buf) || fresh(assembler.buf)
      ensures var p := PullEvent(old(Rest()));
              && e == p.event && Rest() == p.rest
              && Passed() == old(Passed()) + p.passed
              && failed == (old(failed) || p.corrupt)
      ensures emitted == old(emitted) + Listed(e)
      ensures e.None? && !failed ==> source.Remaining() == []
    {
      ghost var start, before := Rest(), Passed();
      while true
        invariant InStream(records)
        invariant assembler.buf == old(assembler.buf) || fresh(assembler.buf)
        invariant failed == old(failed) && emitted == old(emitted)
        invariant before <= Passed()
        decreases |source.Remaining()|, |assembler.Unconsumed()|
      {
        ghost var now, passed := Rest(), Passed();
        var p;
        p, e := PullRecord(records);
        match p
        case Record(_) =>
          if e.Some? {
            PullEmits(records, before, passed, old(emitted), start, now, failed, Front(now));
            break;
          }
          EmptyPlus(old(emitted));
        case NeedMore =>
          var n := Refill(records);
          if n == 0 {
            PullStops(records, before, passed, emitted, start, now, failed);
            break;
          }
        case Corrupt =>
          PullStops(records, before, passed, emitted, start, now, failed);
          failed := true;
          break;
      }
    }
  }

  /**
   The books balance in every reachable state: no byte of the file is unaccounted for, the
   counters agree with each other, with the frames passed and with the events returned, and
   none of them can have wrapped.
   */
  lemma StreamingAccounts(r: DbnReader)
    requires r.Valid()
    ensures |r.File()| == ReadPrologue(r.File()).value.start + |Concat(r.Passed())|
                          + r.assembler.Buffered() + |r.source.Remaining()|
    ensures r.stats.records == |r.Passed()| && r.stats.events == |r.emitted|
    ensures r.stats.records == r.stats.events + r.stats.skippedNonMbo + r.stats.skippedMalformed
    ensures 4 * r.stats.records <= |r.File()|
  {
    CountersAddUp(r.Passed());
    FourBytesPerRecord(r.Passed());
  }

  /** The buffer holds less than one chunk and the undecided start of a record; compaction is bounded alike. */
  lemma StreamingIsBounded(r: DbnReader)
    requires r.Valid()
    ensures r.assembler.size <= 1019 + r.scratch.Length
    ensures r.assembler.slid <= 1019 * r.assembler.appends
  {
  }
}
