/**
 The benchmark's three ways of draining a file, and the parity gate between them. Timing
 is not modelled.
 */
module Bench {
  import opened Assembler
  import opened Bytes
  import opened Drain
  import opened Framing
  import opened MappedFile
  import opened MmapReader
  import opened Prologue
  import opened Sequences
  import opened Stream
  import opened StreamingReader
  import opened Wrappers

  /** What a mode reports: events counted, and payload bytes framed. */
  datatype Tallied = Tallied(events: nat, recordBytes: nat)

  /** What a list of whole records comes to. */
  function TalliedOf(frames: seq<Frame>): Tallied {
    Tallied(|EventsOf(frames)|, |Concat(frames)|)
  }

  // ---------------------------------------------------- Mode B, in memory

  /**
   Where the records start, as the benchmark computes it. It looks at the magic and the
   metadata length only, and calls a file that is too short for either a bad magic.
   */
  function RecordStart(file: seq<byte>): Result<nat, PrologueError> {
    if |file| < HEADER_SIZE || file[..3] != MAGIC then Failure(BadMagic)
    else Success(HEADER_SIZE + ReadU32(file[4..8]))
  }

  /** The span of records that Mode B takes exists: the source does not check this. */
  predicate RecordsInside(file: seq<byte>) {
    RecordStart(file).Success? ==> RecordStart(file).value <= |file|
  }

  /**
   For every file, what Mode B's check amounts to beside the readers'. It passes exactly
   when the header is whole and its magic right; neither the version nor the length of the
   file is looked at. The readers ask for those two besides, and then start at the same
   offset. The span of records is missing only in files that the readers refuse.
   */
  lemma ModeBRunsIff(file: seq<byte>)
    ensures RecordStart(file).Success? <==>
              ReadPrologue(file) != Failure(TruncatedHeader) && ReadPrologue(file) != Failure(BadMagic)
    ensures IsAccepted(file) <==> RecordStart(file).Success? && RecordsInside(file) && file[3] == 1
    ensures IsAccepted(file) ==> RecordStart(file) == Success(ReadPrologue(file).value.start)
    ensures ReadPrologue(file) == Failure(TruncatedMetadata) <==>
              RecordStart(file).Success? && !RecordsInside(file) && file[3] == 1
    ensures ReadPrologue(file) == Failure(UnsupportedVersion) <==>
              RecordStart(file).Success? && file[3] != 1
    ensures RecordStart(file).Failure? ==> RecordStart(file) == Failure(BadMagic)
    ensures RecordStart(file).Success? ==>
              RecordStart(file).value == 8 + file[4] as int + 0x100 * (file[5] as int)
                                         + 0x1_0000 * (file[6] as int) + 0x100_0000 * (file[7] as int)
  {
    if |file| >= HEADER_SIZE {
      var header := file[..HEADER_SIZE];
      assert header[..3] == file[..3] && header[3] == file[3] && header[4..8] == file[4..8];
      PlaceValues(file[4..8]);
    }
  }

  /** A file both readers refuse for its version and Mode B counts. */
  lemma ModeBRunsOnVersionTwo()
    ensures var file := MAGIC + [2, 0, 0, 0, 0];
            && RecordsInside(file) && RecordStart(file) == Success(8)
            && ReadPrologue(file) == Failure(UnsupportedVersion)
  {
    var file := MAGIC + [2, 0, 0, 0, 0];
    var header := file[..HEADER_SIZE];
    assert header == file && header[..3] == MAGIC && header[3] == 2;
    assert file[4..8] == [0, 0, 0, 0];
    ZerosAreZero(file[4..8]);
  }

  /** A file of eight bytes both readers refuse as cut short; Mode B's check puts its records at offset nine. */
  lemma ModeBPassesTruncatedMetadata()
    ensures var file := MAGIC + [1, 1, 0, 0, 0];
            && |file| == 8 && RecordStart(file) == Success(9) && !RecordsInside(file)
            && ReadPrologue(file) == Failure(TruncatedMetadata)
  {
    var file := MAGIC + [1, 1, 0, 0, 0];
    var header := file[..HEADER_SIZE];
    assert header == file && header[..3] == MAGIC && header[3] == 1;
    var length := file[4..8];
    assert length[0] == 1 && length[1..] == [0, 0, 0];
    ZerosAreZero(length[1..]);
    assert LeToNat(length) == 1;
  }

  lemma {:induction false} ZerosAreZero(bs: seq<byte>)
    requires forall i :: 0 <= i < |bs| ==> bs[i] == 0
    ensures LeToNat(bs) == 0
  {
    if bs != [] {
      ZerosAreZero(bs[1..]);
    }
  }

  lemma OneMore(handed: seq<Frame>, f: Frame)
    ensures var t := TalliedOf(handed);
            TalliedOf(handed + [f]) ==
              Tallied(t.events + if RouteRecord(f).Emit? then 1 else 0, t.recordBytes + |f|)
  {
    EventsAppend(handed, [f]);
    ConcatAppend(handed, [f]);
    SingleFrame(f);
  }

  method FeedSlice(assembler: RecordAssembler, file: array<byte>, start: nat, offset: nat, n: nat)
    requires assembler.Valid() && assembler.buf != file
    requires start + offset + n <= file.Length
    requires assembler.fed == file[start..][..offset]
    modifies assembler, assembler.buf
    ensures assembler.Valid()
    ensures assembler.buf == old(assembler.buf) || fresh(assembler.buf)
    ensures assembler.fed == file[start..][..offset + n]
    ensures assembler.handed == old(assembler.handed)
  {
    ghost var records := file[start..];
    var slice := Span(file, start + offset, start + offset + n);
    assert slice.Bytes() == records[offset..offset + n];
    SlicePlus(records, 0, offset, offset + n);
    assembler.Append(slice);
  }

  /** Pulls a record, and if there is one counts it. */
  method PullAndCount(assembler: RecordAssembler, t: Tallied) returns (pull: Pull, t': Tallied)
    requires assembler.Valid()
    requires t == TalliedOf(assembler.handed)
    modifies assembler
    ensures assembler.Valid() && assembler.buf == old(assembler.buf) && assembler.fed == old(assembler.fed)
    ensures t' == TalliedOf(assembler.handed)
    ensures pull.Record? ==> |assembler.Unconsumed()| < |old(assembler.Unconsumed())|
    ensures pull.NeedMore? ==> FrameOne(assembler.Unconsumed()).NeedMore?
    ensures pull.Corrupt? ==> FrameOne(assembler.Unconsumed()).Corrupt?
  {
    t' := t;
    ghost var handed, held := assembler.handed, assembler.Unconsumed();
    pull := assembler.Next();
    if pull.Record? {
      OneMore(handed, Front(held));
      var bs := assembler.Load(pull.record);
      assert bs == Front(held);
      var events := if RouteRecord(bs).Emit? then t.events + 1 else t.events;
      t' := Tallied(events, t.recordBytes + (pull.record.to - pull.record.from));
    }
  }

  /** One pass over the records, fed to a fresh assembler in slices of at most `chunk` bytes. */
  method InMemoryPass(file: array<byte>, start: nat, chunk: nat) returns (t: Tallied)
    requires start <= file.Length
    requires chunk >= 1
    ensures t == TalliedOf(Frames(file[start..]))
    ensures t.events == |EventsOf(Frames(file[start..]))|
    ensures t.recordBytes + |Tail(file[start..])| == file.Length - start
  {
    var assembler := new RecordAssembler();
    t := Tallied(0, 0);
    var offset := 0;
    var size := file.Length - start;
    while true
      invariant fresh(assembler) && fresh(assembler.buf) && assembler.Valid()
      invariant offset <= size
      invariant assembler.fed == file[start..][..offset]
      invariant t == TalliedOf(assembler.handed)
      decreases size - offset, |assembler.Unconsumed()|
    {
      var pull;
      pull, t := PullAndCount(assembler, t);
      match pull
      case Record(_) =>
      case Corrupt =>
        break;
      case NeedMore =>
        if offset >= size {
          break;
        }
        var n := if chunk < size - offset then chunk else size - offset;
        FeedSlice(assembler, file, start, offset, n);
        offset := offset + n;
    }
    Exhausted(assembler, file[start..], offset);
    ParseIsAFraming(file[start..]);
  }

  /** When the assembler stops on a corrupt frame or at the end of the records, it has handed out all there is. */
  lemma Exhausted(a: RecordAssembler, records: seq<byte>, offset: nat)
    requires a.Valid() && offset <= |records| && a.fed == records[..offset]
    requires FrameOne(a.Unconsumed()).Corrupt? || (offset == |records| && !FrameOne(a.Unconsumed()).Ok?)
    ensures a.handed == Frames(records)
  {
    HandedIsThePrefixOfTheParse(a);
    SplitAt(records, offset);
    if offset < |records| {
      TruncationMonotone(a.fed, records[offset..]);
    } else {
      assert records[..offset] == records;
    }
  }

  /** Mode B: every pass starts afresh and the last one is reported. */
  method BenchInMemory(file: array<byte>, chunk: nat, passes: nat) returns (r: Result<Tallied, PrologueError>)
    requires RecordsInside(file[..])
    requires chunk >= 1
    ensures RecordStart(file[..]).Failure? ==> r == Failure(RecordStart(file[..]).error)
    ensures RecordStart(file[..]).Success? && passes == 0 ==> r == Success(Tallied(0, 0))
    ensures RecordStart(file[..]).Success? && passes > 0 ==>
              var records := file[RecordStart(file[..]).value..];
              r == Success(TalliedOf(Frames(records)))
  {
    var from := RecordStart(file[..]);
    if from.Failure? {
      return Failure(from.error);
    }
    var start, s := from.value, Tallied(0, 0);
    for p := 0 to passes
      invariant p == 0 ==> s == Tallied(0, 0)
      invariant p > 0 ==> s == TalliedOf(Frames(file[start..]))
    {
      s := InMemoryPass(file, start, chunk);
    }
    return Success(s);
  }

  // ------------------------------------------ Modes A and C, the real readers

  /** How many events a file holds, and how many bytes its whole records take. */
  function EventCount(file: seq<byte>): nat
    requires IsAccepted(file)
  {
    |EventsOf(Frames(Records(file)))|
  }

  function PayloadSize(file: seq<byte>): nat
    requires IsAccepted(file)
  {
    |Concat(Frames(Records(file)))|
  }

  /** One pass of Mode A: open the streaming reader and drain it. */
  method StreamingPass(contents: seq<byte>, chunk: nat) returns (r: Result<nat, PrologueError>)
    requires |contents| < U64_END && chunk >= 1
    ensures r == if IsAccepted(contents) then Success(EventCount(contents)) else Failure(ReadPrologue(contents).error)
  {
    var attempt := DbnReader.Open(contents, chunk);
    if attempt.Failure? {
      return Failure(attempt.error);
    }
    var o := CollectStreaming(attempt.value);
    return Success(|o.events|);
  }

  /** One pass of Mode C: map the file, drain the mapped reader, and let the mapping go. */
  method MappedPass(space: AddressSpace, contents: seq<byte>) returns (r: Result<nat, PrologueError>)
    requires space.Valid()
    requires |contents| < U64_END
    modifies space
    ensures space.Valid() && space.live == old(space.live)
    ensures r == if IsAccepted(contents) then Success(EventCount(contents)) else Failure(ReadPrologue(contents).error)
  {
    var attempt := MmapDbnReader.Open(space, contents);
    if attempt.Failure? {
      return Failure(attempt.error);
    }
    var o := CollectMapped(attempt.value);
    ReleaseFile(attempt.value);
    return Success(|o.events|);
  }

  /** The end of a mapped reader's life. */
  method ReleaseFile(reader: MmapDbnReader)
    requires reader.Valid()
    modifies reader.file, reader.file.space
    ensures reader.file.space.Valid()
    ensures reader.file.space.live == old(reader.file.space.live) - {old(reader.file.data)}
    ensures reader.file.data == null
  {
    reader.file.Release();
  }

  /** Mode A: the count of the last pass. */
  method BenchEndToEnd(contents: seq<byte>, chunk: nat, passes: nat) returns (r: Result<nat, PrologueError>)
    requires |contents| < U64_END && chunk >= 1
    ensures r == if passes == 0 then Success(0)
                 else if IsAccepted(contents) then Success(EventCount(contents))
                 else Failure(ReadPrologue(contents).error)
  {
    r := Success(0);
    for p := 0 to passes
      invariant p == 0 ==> r == Success(0)
      invariant p > 0 ==> IsAccepted(contents) && r == Success(EventCount(contents))
    {
      r := StreamingPass(contents, chunk);
      if r.Failure? {
        return;
      }
    }
  }

  /** Mode C: the count of the last pass. */
  method BenchMmap(space: AddressSpace, contents: seq<byte>, passes: nat) returns (r: Result<nat, PrologueError>)
    requires space.Valid()
    requires |contents| < U64_END
    modifies space
    ensures space.Valid() && space.live == old(space.live)
    ensures r == if passes == 0 then Success(0)
                 else if IsAccepted(contents) then Success(EventCount(contents))
                 else Failure(ReadPrologue(contents).error)
  {
    r := Success(0);
    for p := 0 to passes
      invariant space.Valid() && space.live == old(space.live)
      invariant p == 0 ==> r == Success(0)
      invariant p > 0 ==> IsAccepted(contents) && r == Success(EventCount(contents))
    {
      r := MappedPass(space, contents);
      if r.Failure? {
        return;
      }
    }
  }

  // ------------------------------------------------------- the parity gate

  datatype Report = Report(stream: nat, inMemory: Tallied, mmap: nat, parity: bool)

  /**
   The benchmark's run over a file: it fails exactly when the file is refused, and the gate
   it ends with never trips. All three modes count the same events, and the payload size
   that Mode B measures, and lends to the others, is that of the whole records.
   */
  method CompareModes(file: array<byte>, chunk: nat, passes: nat) returns (r: Result<Report, PrologueError>)
    requires file.Length < U64_END
    requires chunk >= 1 && passes >= 1
    ensures r.Failure? ==> ReadPrologue(file[..]) == Failure(r.error)
    ensures r.Success? ==>
              && IsAccepted(file[..]) && r.value.parity
              && r.value.stream == r.value.inMemory.events == r.value.mmap == EventCount(file[..])
              && r.value.mmap == |EventsOf(Frames(Records(file[..])))|
              && r.value.inMemory.recordBytes == PayloadSize(file[..])
              && r.value.inMemory.recordBytes + |Tail(Records(file[..]))| == |Records(file[..])|
  {
    var contents := file[..];
    var a := BenchEndToEnd(contents, chunk, passes);
    if a.Failure? {
      return Failure(a.error);
    }
    ModeBRunsIff(contents);
    var b := BenchInMemory(file, chunk, passes);
    assert file[RecordStart(contents).value..] == Records(contents);
    var space := new AddressSpace();
    var c := BenchMmap(space, contents, passes);
    ParseIsAFraming(Records(contents));
    return Success(Report(a.value, b.value, c.value, a.value == c.value));
  }
}
