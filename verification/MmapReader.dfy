/** The mapped reader: a cursor that walks the framer over one contiguous file. */
module MmapReader {
  import opened Bytes
  import opened Events
  import opened Framing
  import opened MappedFile
  import opened Prologue
  import opened Sequences
  import opened Stats
  import opened Stream
  import opened Wrappers

  class MmapDbnReader {
    const file: MemoryMappedFile
    const stats: IngestStats
    var cursor: nat
    var version: byte
    var failed: bool

    ghost var passed: seq<Frame>   // the frames the cursor has passed
    ghost var emitted: seq<Event>  // every event returned so far

    ghost const mapped: seq<byte>  // what the file read as when it was mapped

    /** Every object the reader depends on, besides itself. */
    ghost function Parts(): set<object>
      reads file
    {
      {file, file.space, stats} + if file.data == null then {} else {file.data}
    }

    ghost function File(): seq<byte> {
      mapped
    }

    ghost function Rest(): seq<byte>
      reads this
      requires cursor <= |mapped|
    {
      mapped[cursor..]
    }

    /** The mapping is alive and still shows the file. */
    ghost predicate IsMapped()
      reads this, file, file.space, file.data
    {
      file.Valid() && file.Bytes() == mapped
    }

    /** The cursor has made progress through `records`, which end where the file does. */
    ghost predicate InStream(records: seq<byte>)
      reads this, file, file.space, file.data, stats
    {
      && IsMapped()
      && cursor <= |mapped|
      && |records| < U64_END
      && Progress(records, passed, emitted, Rest(), failed)
      && stats.Counts(passed)
    }

    ghost predicate Valid()
      reads this, file, file.space, file.data, stats
    {
      && |File()| < U64_END
      && IsAccepted(File()) && version == SUPPORTED_VERSION
      && InStream(Records(File()))
    }

    constructor (file: MemoryMappedFile)
      requires file.Valid()
      ensures this.file == file && IsMapped() && mapped == file.Bytes() && cursor == 0 && !failed
      ensures passed == [] && emitted == [] && fresh(stats) && stats.Counts([])
    {
      this.file := file;
      mapped := file.Bytes();
      stats := new IngestStats();
      cursor, version, failed := 0, 0, false;
      passed, emitted := [], [];
    }

    /**
     Opens a file: either a reader standing in front of the first record, or the reason for
     refusing it, in which case the mapping has been released again.
     */
    static method Open(space: AddressSpace, contents: seq<byte>)
      returns (r: Result<MmapDbnReader, PrologueError>)
      requires space.Valid()
      requires |contents| < U64_END
      modifies space
      ensures space.Valid()
      ensures r.Success? <==> IsAccepted(contents)
      ensures r.Failure? ==> ReadPrologue(contents) == Failure(r.error) && space.live == old(space.live)
      ensures r.Success? ==>
                var reader := r.value;
                && reader.Valid() && fresh(reader) && fresh(reader.stats) && fresh(reader.file)
                && reader.file.space == space && fresh(reader.Parts() - {space})
                && space.live == old(space.live) + {reader.file.data}
                && reader.File() == contents
                && reader.Rest() == Records(contents) && reader.passed == [] && reader.emitted == []
                && !reader.failed
    {
      var file := new MemoryMappedFile.Map(space, contents);
      var reader := new MmapDbnReader(file);
      var refused := reader.SkipPrologue();
      if refused.Some? {
        file.Release();
        return Failure(refused.value);
      }
      StartOfStream(Records(contents));
      return Success(reader);
    }

    /** Validates the prologue in place and sets the cursor to the first record. */
    method SkipPrologue() returns (refused: Option<PrologueError>)
      requires IsMapped()
      modifies this`version, this`cursor
      ensures refused.None? <==> IsAccepted(File())
      ensures refused.Some? ==> ReadPrologue(File()) == Failure(refused.value)
      ensures refused.None? ==>
                version == SUPPORTED_VERSION && cursor == ReadPrologue(File()).value.start
    {
      var f := file.Bytes();
      if |f| < HEADER_SIZE {
        return Some(TruncatedHeader);
      }
      RefusalReasons(f);
      PlaceValues(f[4..8]);
      if f[0] != 0x44 || f[1] != 0x42 || f[2] != 0x4E {
        return Some(BadMagic);
      }
      version := f[3];
      if version != SUPPORTED_VERSION {
        return Some(UnsupportedVersion);
      }
      cursor := HEADER_SIZE + ReadU32(f[4..8]);
      if cursor > |f| {
        return Some(TruncatedMetadata);
      }
      return None;
    }

    /** Frames, routes and counts the record at the cursor. */
    method PassRecord(size: nat, ghost records: seq<byte>) returns (e: Option<Event>)
      requires InStream(records)
      requires FrameOne(Rest()).Ok? && size == |Front(Rest())|
      modifies `cursor, `passed, `emitted, stats
      ensures InStream(records)
      ensures e == EventOf(RouteRecord(Front(old(Rest()))))
      ensures passed == old(passed) + [Front(old(Rest()))]
      ensures Rest() == old(Rest())[size..]
      ensures emitted == old(emitted) + Listed(e)
    {
      ghost var rest := Rest();
      var f := Front(file.Bytes()[cursor..]);
      PassFrame(records, passed, emitted, rest, failed, f);
      FramesPassedBound(records, passed, emitted, rest, failed);
      SliceOfSlice(File(), cursor, size);
      cursor := cursor + size;
      assert Rest() == rest[size..];
      e := TallyFrame(stats, f, passed);
      passed, emitted := passed + [f], emitted + Listed(e);
    }

    /** Pulls the next event, passing over skipped records. */
    method Next() returns (e: Option<Event>)
      requires Valid()
      modifies this, stats
      ensures Valid()
      ensures var p := PullEvent(old(Rest()));
              && e == p.event && Rest() == p.rest
              && passed == old(passed) + p.passed
              && failed == (old(failed) || p.corrupt)
      ensures emitted == old(emitted) + Listed(e)
    {
      e := Drive(Records(File()));
    }

    /** The pull loop, from anywhere in the stream. */
    method Drive(ghost records: seq<byte>) returns (e: Option<Event>)
      requires InStream(records)
      modifies `cursor, `failed, `passed, `emitted, stats
      ensures InStream(records)
      ensures var p := PullEvent(old(Rest()));
              && e == p.event && Rest() == p.rest
              && passed == old(passed) + p.passed
              && failed == (old(failed) || p.corrupt)
      ensures emitted == old(emitted) + Listed(e)
    {
      ghost var start := Rest();
      while true
        invariant InStream(records)
        invariant failed == old(failed) && emitted == old(emitted)
        invariant old(passed) <= passed
        decreases |Rest()|
      {
        ghost var now, soFar := Rest(), passed;
        match FrameOne(file.Bytes()[cursor..])
        case Ok(_, size) =>
          e := PassRecord(size, records);
          if e.Some? {
            PullEmits(records, old(passed), soFar, old(emitted), start, now, failed, Front(now));
            return;
          }
          EmptyPlus(old(emitted));
        case NeedMore =>
          PullStops(records, old(passed), soFar, emitted, start, now, failed);
          return None;
        case Corrupt =>
          PullStops(records, old(passed), soFar, emitted, start, now, failed);
          failed := true;
          return None;
      }
    }
  }

  /** The books of the mapped reader balance as well. */
  lemma MappedAccounts(r: MmapDbnReader)
    requires r.Valid()
    ensures r.cursor == ReadPrologue(r.File()).value.start + |Concat(r.passed)|
    ensures r.stats.records == |r.passed| && r.stats.events == |r.emitted|
    ensures r.stats.records == r.stats.events + r.stats.skippedNonMbo + r.stats.skippedMalformed
    ensures 4 * r.stats.records <= |r.File()|
  {
    CountersAddUp(r.passed);
    FourBytesPerRecord(r.passed);
  }
}
