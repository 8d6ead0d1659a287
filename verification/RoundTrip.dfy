/**
 Writing a whole file and reading it back, and the laws of the format on whole files. What
 is said of a file's meaning holds of both readers, which are proved to compute it.
 */
module RoundTrip {
  import opened Bytes
  import opened Drain
  import opened Events
  import opened Framing
  import opened Prologue
  import opened Sequences
  import opened Stream
  import opened Wire
  import opened Wrappers

  /** A market-by-order record no event can be made of. */
  predicate IsMalformed(w: WireMbo) {
    w.length == 14 && w.rtype == MBO_RTYPE && (!IsValidAction(w.action) || !IsValidSide(w.side))
  }

  /** A whole record of another type, or of another size. */
  predicate IsForeign(f: Frame) {
    f[1] != MBO_RTYPE || |f| != WIRE_MBO_SIZE
  }

  type Malformed = w: WireMbo | IsMalformed(w)
    witness WireMbo(14, 0xA0, 0, 0, 0, 0, 0, 0, 0, 0, 0, 0, 0, 0, 0)
  type Foreign = f: Frame | IsForeign(f) witness [1, 0, 0, 0]

  /** What a writer may put into a file. */
  datatype Item =
    | Good(event: Event, publisherId: u16, instrumentId: u32, channelId: byte, tsInDelta: i32)
    | Bad(wire: Malformed)
    | Other(frame: Foreign)

  function WriteItem(item: Item): (f: Frame) {
    match item
    case Good(e, p, i, c, d) =>
      EncodeFields(FromEvent(e, p, i, c, d));
      Encode(FromEvent(e, p, i, c, d))
    case Bad(w) =>
      EncodeFields(w);
      Encode(w)
    case Other(f) => f
  }

  function WriteItems(items: seq<Item>): seq<Frame> {
    if items == [] then [] else [WriteItem(items[0])] + WriteItems(items[1..])
  }

  function WriteFile(metadata: seq<byte>, items: seq<Item>, tail: seq<byte>): seq<byte> {
    WritePrologue(metadata) + (Concat(WriteItems(items)) + tail)
  }

  function GoodEvents(items: seq<Item>): seq<Event> {
    if items == [] then []
    else (if items[0].Good? then [items[0].event] else []) + GoodEvents(items[1..])
  }

  function BadCount(items: seq<Item>): nat {
    if items == [] then 0 else (if items[0].Bad? then 1 else 0) + BadCount(items[1..])
  }

  function OtherCount(items: seq<Item>): nat {
    if items == [] then 0 else (if items[0].Other? then 1 else 0) + OtherCount(items[1..])
  }

  /** Each kind of item is routed as what it is. */
  lemma ItemRoutes(item: Item)
    ensures RouteRecord(WriteItem(item)) ==
              match item
              case Good(e, _, _, _, _) => Emit(e)
              case Bad(_) => SkipMalformed
              case Other(_) => SkipNonMbo
  {
    match item
    case Good(e, p, i, c, d) =>
      EncodeFields(FromEvent(e, p, i, c, d));
      DecodeEncode(FromEvent(e, p, i, c, d));
      ToEventFromEvent(e, p, i, c, d);
    case Bad(w) =>
      EncodeFields(w);
      DecodeEncode(w);
    case Other(f) =>
  }

  lemma {:induction false} ItemEvents(items: seq<Item>)
    ensures EventsOf(WriteItems(items)) == GoodEvents(items)
  {
    if items != [] {
      ItemRoutes(items[0]);
      ItemEvents(items[1..]);
      assert WriteItems(items)[1..] == WriteItems(items[1..]);
      EmptyPlus(GoodEvents(items[1..]));
    }
  }

  lemma {:induction false} ItemSkips(items: seq<Item>)
    ensures SkipsOf(WriteItems(items), SkipMalformed) == BadCount(items)
    ensures SkipsOf(WriteItems(items), SkipNonMbo) == OtherCount(items)
  {
    if items != [] {
      ItemRoutes(items[0]);
      ItemSkips(items[1..]);
      assert WriteItems(items)[1..] == WriteItems(items[1..]);
    }
  }

  lemma {:induction false} ItemCount(items: seq<Item>)
    ensures |WriteItems(items)| == |items|
  {
    if items != [] {
      ItemCount(items[1..]);
    }
  }

  /**
   The whole-file round trip: any metadata, any items, and behind them any start of a
   record. Reading the file gives back the good events in order, the exact count of each
   kind, and a clean end.
   */
  lemma FileRoundTrip(metadata: seq<byte>, items: seq<Item>, tail: seq<byte>)
    requires |metadata| < 0x1_0000_0000
    requires FrameOne(tail).NeedMore?
    ensures Meaning(WriteFile(metadata, items, tail)) ==
              Success(Outcome(GoodEvents(items),
                              Counters(|items|, |GoodEvents(items)|, OtherCount(items), BadCount(items)),
                              false))
  {
    var records := Concat(WriteItems(items)) + tail;
    PrologueRoundTrip(metadata, records);
    ParseBehindFrames(WriteItems(items), tail);
    EmptyPlus(WriteItems(items));
    ItemEvents(items);
    ItemSkips(items);
    ItemCount(items);
  }

  lemma GoodFrameIsAnItem(f: Frame, e: Event) returns (item: Item)
    requires RouteRecord(f) == Emit(e)
    ensures WriteItem(item) == f
  {
    FrameRoutesToEventIffEncoded(f, e);
    var p: u16, i: u32, c: byte, d: i32 :| f == Encode(FromEvent(e, p, i, c, d));
    item := Good(e, p, i, c, d);
  }

  lemma BadFrameIsAnItem(f: Frame) returns (item: Item)
    requires RouteRecord(f).SkipMalformed?
    ensures WriteItem(item) == f
  {
    EncodeDecode(f);
    item := Bad(Decode(f));
  }

  /** The item a whole record was written from. */
  lemma FrameIsAnItem(f: Frame) returns (item: Item)
    ensures WriteItem(item) == f
  {
    match RouteRecord(f)
    case Emit(e) => item := GoodFrameIsAnItem(f, e);
    case SkipMalformed => item := BadFrameIsAnItem(f);
    case SkipNonMbo => item := Other(f);
  }

  lemma {:induction false} FramesAreItems(frames: seq<Frame>) returns (items: seq<Item>)
    ensures WriteItems(items) == frames
  {
    if frames == [] {
      items := [];
    } else {
      var item := FrameIsAnItem(frames[0]);
      var later := FramesAreItems(frames[1..]);
      items := [item] + later;
      assert items[1..] == later;
    }
  }

  /**
   A file reads cleanly exactly when it is a written one: the round trip loses nothing, and
   there are no other clean files.
   */
  lemma ReadsCleanlyIffWritten(file: seq<byte>)
    ensures Meaning(file).Success? && !Meaning(file).value.failed <==>
              exists metadata: seq<byte>, items: seq<Item>, tail: seq<byte> ::
                |metadata| < 0x1_0000_0000 && FrameOne(tail).NeedMore? && file == WriteFile(metadata, items, tail)
  {
    if Meaning(file).Success? && !Meaning(file).value.failed {
      var records := Records(file);
      var metadata := file[HEADER_SIZE..ReadPrologue(file).value.start];
      WrittenBack(file, metadata);
      ParseIsAFraming(records);
      var items := FramesAreItems(Frames(records));
      assert file == WriteFile(metadata, items, Tail(records));
    }
    forall metadata: seq<byte>, items: seq<Item>, tail: seq<byte>
      | |metadata| < 0x1_0000_0000 && FrameOne(tail).NeedMore? && file == WriteFile(metadata, items, tail)
      ensures Meaning(file).Success? && !Meaning(file).value.failed
    {
      FileRoundTrip(metadata, items, tail);
    }
  }

  // ----------------------------------------------------- laws of whole files

  /** Cutting an accepted file short anywhere behind its prologue only loses a suffix of what it yields. */
  lemma FileTruncation(prefix: seq<byte>, more: seq<byte>)
    requires Meaning(prefix).Success?
    ensures Meaning(prefix + more).Success?
    ensures var short, long := Meaning(prefix).value, Meaning(prefix + more).value;
            && short.events <= long.events
            && short.counters.AtMost(long.counters)
            && (short.failed ==> long == short)
  {
    PrologueOfPrefix(prefix, more);
    TruncationMonotone(Records(prefix), more);
  }

  /** Inserting a skipped record at a frame boundary of a file changes two counters, by one, and nothing else. */
  lemma FileSkip(metadata: seq<byte>, before: seq<Frame>, skipped: Frame, after: seq<byte>)
    requires |metadata| < 0x1_0000_0000
    requires !RouteRecord(skipped).Emit?
    ensures var with := Meaning(WritePrologue(metadata) + (Concat(before) + skipped + after));
            var without := Meaning(WritePrologue(metadata) + (Concat(before) + after));
            && with.Success? && without.Success?
            && with.value == without.value.(counters :=
                 without.value.counters.Plus(CountOf(RouteRecord(skipped))))
  {
    PrologueRoundTrip(metadata, Concat(before) + skipped + after);
    PrologueRoundTrip(metadata, Concat(before) + after);
    SkipNonInterference(before, skipped, after);
  }

  /** Behind the two-byte prefix of its first corrupt frame, a file may hold anything. */
  lemma FileCorruption(metadata: seq<byte>, before: seq<Frame>, rtype: byte, junk: seq<byte>)
    requires |metadata| < 0x1_0000_0000
    ensures Meaning(WritePrologue(metadata) + (Concat(before) + ([0, rtype] + junk))) ==
              Success(Outcome(EventsOf(before), CountersOf(before), true))
  {
    PrologueRoundTrip(metadata, Concat(before) + ([0, rtype] + junk));
    CorruptionAbsorbs(before, rtype, junk);
  }
}
