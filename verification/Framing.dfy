/**
 Framing and routing: the two pure decisions both readers share. `FrameOne` decides
 whether a whole record sits at the front of some bytes; `RouteRecord` decides what a
 framed record is worth.
 */
module Framing {
  import opened Bytes
  import opened Events
  import opened Wire
  import opened Wrappers

  // ---------------------------------------------------------------- framing

  datatype FrameResult = Ok(rtype: byte, recordSize: nat) | NeedMore | Corrupt

  function FrameOne(buf: seq<byte>): FrameResult {
    if |buf| < 2 then NeedMore
    else
      var recordSize := buf[0] as int * 4;
      if recordSize == 0 then Corrupt
      else if |buf| < recordSize then NeedMore
      else Ok(buf[1], recordSize)
  }

  /** The largest record is 255 words, so undecided bytes are always fewer than that. */
  const MAX_RECORD: nat := 1020

  predicate IsFrame(bs: seq<byte>) {
    |bs| >= 4 && |bs| == bs[0] as int * 4
  }

  /** The bytes of one whole record: its own first byte states its size in words. */
  type Frame = bs: seq<byte> | IsFrame(bs) witness [1, 0, 0, 0]

  /** The whole record at the front of some bytes. */
  function Front(bs: seq<byte>): (f: Frame)
    requires FrameOne(bs).Ok?
    ensures |f| == FrameOne(bs).recordSize && f <= bs
  {
    bs[..FrameOne(bs).recordSize]
  }

  /** A non-`NeedMore` answer never changes as more bytes arrive. */
  lemma FrameOneStable(a: seq<byte>, b: seq<byte>)
    requires !FrameOne(a).NeedMore?
    ensures FrameOne(a + b) == FrameOne(a)
  {
    assert (a + b)[0] == a[0] && (a + b)[1] == a[1];
  }

  /** Bytes in front of others show the same whole record, or the same corruption. */
  lemma FrontStable(a: seq<byte>, b: seq<byte>)
    ensures FrameOne(a).Ok? ==> FrameOne(a + b).Ok? && Front(a + b) == Front(a)
    ensures FrameOne(a).Ok? ==> (a + b)[|Front(a)|..] == a[|Front(a)|..] + b
    ensures FrameOne(a).Corrupt? ==> FrameOne(a + b).Corrupt?
    ensures FrameOne(a).NeedMore? ==> |a| < MAX_RECORD
  {
    if !FrameOne(a).NeedMore? {
      FrameOneStable(a, b);
    }
  }

  /** `NeedMore` is exactly the answer that some continuation would change. */
  lemma NeedMoreIffUndecided(a: seq<byte>)
    ensures FrameOne(a).NeedMore? <==> exists b: seq<byte> :: FrameOne(a + b) != FrameOne(a)
  {
    if FrameOne(a).NeedMore? {
      var b: seq<byte> := seq(MAX_RECORD, _ => 0);
      if |a| > 0 {
        assert (a + b)[0] == a[0];
      }
      assert FrameOne(a + b) != FrameOne(a);
    } else {
      forall b: seq<byte>
        ensures FrameOne(a + b) == FrameOne(a)
      {
        FrameOneStable(a, b);
      }
    }
  }

  /** Bytes start with a whole record exactly when they are a frame and a rest; the frame is unique. */
  lemma FrameOneFindsFrame(bs: seq<byte>, f: Frame, rest: seq<byte>)
    requires bs == f + rest
    ensures FrameOne(bs) == Ok(f[1], |f|)
    ensures bs[..|f|] == f && bs[|f|..] == rest
  {
  }

  // ---------------------------------------------------------------- routing

  const MBO_RTYPE: byte := 0xA0

  datatype Routed = Emit(event: Event) | SkipNonMbo | SkipMalformed

  function RouteRecord(record: seq<byte>): Routed
    requires |record| >= 2
  {
    if record[1] != MBO_RTYPE || |record| != WIRE_MBO_SIZE then SkipNonMbo
    else
      match ToEvent(Decode(record))
      case Success(e) => Emit(e)
      case Failure(_) => SkipMalformed
  }

  /**
   Routing read off the raw bytes: when each outcome happens, and what the event then
   holds, as nine fields at their offsets.
   */
  lemma RoutingByOffsets(record: seq<byte>)
    requires |record| >= 2
    ensures RouteRecord(record).SkipNonMbo? <==> record[1] != 0xA0 || |record| != 56
    ensures RouteRecord(record).Emit? <==>
              && record[1] == 0xA0 && |record| == 56
              && (exists a: Action :: a.Wire() == record[38])
              && (exists s: Side :: s.Wire() == record[39])
    ensures RouteRecord(record).Emit? ==>
              var e := RouteRecord(record).event;
              && e.tsEvent == LeToNat(record[8..16])
              && e.orderId == LeToNat(record[16..24])
              && e.price == LeToNat(record[24..32]) - (if record[31] >= 0x80 then 0x1_0000_0000_0000_0000 else 0)
              && e.size == LeToNat(record[32..36])
              && e.flags == record[36]
              && e.action.Wire() == record[38]
              && e.side.Wire() == record[39]
              && e.tsRecv == LeToNat(record[40..48])
              && e.sequence == LeToNat(record[52..56])
  {
    if |record| == WIRE_MBO_SIZE {
      AlphabetsAreTheEnumerators(record[38]);
      AlphabetsAreTheEnumerators(record[39]);
      SignBit(record[24..32]);
      Pow256Values();
    }
  }

  /**
   A record routes to an event exactly when it is that event written out. The four dropped
   fields are free, and so is the length byte, which routing does not look at.
   */
  lemma RoutesToEventIffEncoded(record: seq<byte>, e: Event)
    requires |record| >= 2
    ensures RouteRecord(record) == Emit(e) <==>
              exists l: byte, p: u16, i: u32, c: byte, d: i32 ::
                record == Encode(FromEvent(e, p, i, c, d).(length := l))
  {
    if RouteRecord(record) == Emit(e) {
      var w := Decode(record);
      EncodeDecode(record);
      AlphabetsAreTheEnumerators(w.action);
      AlphabetsAreTheEnumerators(w.side);
      assert w == FromEvent(e, w.publisherId, w.instrumentId, w.channelId, w.tsInDelta).(length := w.length);
    }
    forall l: byte, p: u16, i: u32, c: byte, d: i32
      | record == Encode(FromEvent(e, p, i, c, d).(length := l))
      ensures RouteRecord(record) == Emit(e)
    {
      var w := FromEvent(e, p, i, c, d);
      EncodeFields(w.(length := l));
      DecodeEncode(w.(length := l));
      ToEventFromEvent(e, p, i, c, d);
      assert ToEvent(w.(length := l)) == ToEvent(w);
    }
  }

  /** For a framed record the length byte is the one an event is written with. */
  lemma FrameRoutesToEventIffEncoded(f: Frame, e: Event)
    ensures RouteRecord(f) == Emit(e) <==>
              exists p: u16, i: u32, c: byte, d: i32 :: f == Encode(FromEvent(e, p, i, c, d))
  {
    RoutesToEventIffEncoded(f, e);
    forall l: byte, p: u16, i: u32, c: byte, d: i32
      ensures f == Encode(FromEvent(e, p, i, c, d).(length := l)) ==> l == 14
    {
      EncodeFields(FromEvent(e, p, i, c, d).(length := l));
    }
    forall p: u16, i: u32, c: byte, d: i32
      ensures FromEvent(e, p, i, c, d).(length := 14) == FromEvent(e, p, i, c, d)
    {
    }
  }

  // --------------------------------------------------------------- counting

  /** The values of the four ingest counters, without wrap-around. */
  datatype Counters = Counters(records: nat, events: nat, skippedNonMbo: nat, skippedMalformed: nat) {
    function Plus(other: Counters): Counters {
      Counters(records + other.records, events + other.events,
               skippedNonMbo + other.skippedNonMbo, skippedMalformed + other.skippedMalformed)
    }

    predicate AtMost(other: Counters) {
      records <= other.records && events <= other.events
      && skippedNonMbo <= other.skippedNonMbo && skippedMalformed <= other.skippedMalformed
    }
  }

  function CountOf(routed: Routed): Counters {
    match routed
    case Emit(_) => Counters(1, 1, 0, 0)
    case SkipNonMbo => Counters(1, 0, 1, 0)
    case SkipMalformed => Counters(1, 0, 0, 1)
  }

  function EventOf(routed: Routed): Option<Event> {
    match routed
    case Emit(e) => Some(e)
    case _ => None
  }
}
