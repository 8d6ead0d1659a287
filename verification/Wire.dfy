/**
 The 56-byte market-by-order wire record: its layout as a codec, and the
 validate-and-convert boundary between wire bytes and `Event`.
 */
module Wire {
  import opened Bytes
  import opened Events
  import opened Sequences
  import opened Wrappers

  const WIRE_MBO_SIZE: nat := 56

  /** The fields in wire order. */
  datatype WireMbo = WireMbo(
    length: byte,
    rtype: byte,
    publisherId: u16,
    instrumentId: u32,
    tsEvent: u64,
    orderId: u64,
    price: i64,
    size: u32,
    flags: byte,
    channelId: byte,
    action: byte,
    side: byte,
    tsRecv: u64,
    tsInDelta: i32,
    sequence: u32)

  /** Copies 56 raw bytes into the record: each field is read at its pinned offset. */
  function Decode(bs: seq<byte>): WireMbo
    requires |bs| == WIRE_MBO_SIZE
  {
    WireMbo(
      bs[0],
      bs[1],
      ReadU16(bs[2..4]),
      ReadU32(bs[4..8]),
      ReadU64(bs[8..16]),
      ReadU64(bs[16..24]),
      ReadI64(bs[24..32]),
      ReadU32(bs[32..36]),
      bs[36],
      bs[37],
      bs[38],
      bs[39],
      ReadU64(bs[40..48]),
      ReadI32(bs[48..52]),
      ReadU32(bs[52..56]))
  }

  // The writer lays the fields out one after the other; no offset appears in it. It is
  // cut into four blocks of 8, 24, 8 and 16 bytes to keep the proofs short.

  function EncodeHead(w: WireMbo): (bs: seq<byte>)
    ensures |bs| == 8
  {
    [w.length, w.rtype] + NatToLe(w.publisherId, 2) + NatToLe(w.instrumentId, 4)
  }

  function EncodeOrder(w: WireMbo): (bs: seq<byte>)
    ensures |bs| == 24
  {
    NatToLe(w.tsEvent, 8) + NatToLe(w.orderId, 8) + WriteI64(w.price)
  }

  function EncodeQuantity(w: WireMbo): (bs: seq<byte>)
    ensures |bs| == 8
  {
    NatToLe(w.size, 4) + [w.flags, w.channelId, w.action, w.side]
  }

  function EncodeReceipt(w: WireMbo): (bs: seq<byte>)
    ensures |bs| == 16
  {
    NatToLe(w.tsRecv, 8) + WriteI32(w.tsInDelta) + NatToLe(w.sequence, 4)
  }

  function Encode(w: WireMbo): (bs: seq<byte>)
    ensures |bs| == WIRE_MBO_SIZE
  {
    EncodeHead(w) + EncodeOrder(w) + EncodeQuantity(w) + EncodeReceipt(w)
  }

  // ---------------------------------------------------------- the bijection

  lemma EncodeFields(w: WireMbo)
    ensures var bs := Encode(w);
            && bs[0] == w.length && bs[1] == w.rtype
            && bs[2..4] == NatToLe(w.publisherId, 2)
            && bs[4..8] == NatToLe(w.instrumentId, 4)
            && bs[8..16] == NatToLe(w.tsEvent, 8)
            && bs[16..24] == NatToLe(w.orderId, 8)
            && bs[24..32] == WriteI64(w.price)
            && bs[32..36] == NatToLe(w.size, 4)
            && bs[36] == w.flags && bs[37] == w.channelId
            && bs[38] == w.action && bs[39] == w.side
            && bs[40..48] == NatToLe(w.tsRecv, 8)
            && bs[48..52] == WriteI32(w.tsInDelta)
            && bs[52..56] == NatToLe(w.sequence, 4)
  {
    var bs := Encode(w);
    assert bs[0..8] == EncodeHead(w);
    assert bs[8..32] == EncodeOrder(w);
    assert bs[32..40] == EncodeQuantity(w);
    assert bs[40..56] == EncodeReceipt(w);
    assert bs[2..4] == EncodeHead(w)[2..4] && bs[4..8] == EncodeHead(w)[4..8];
    assert bs[8..16] == EncodeOrder(w)[0..8];
    assert bs[16..24] == EncodeOrder(w)[8..16];
    assert bs[24..32] == EncodeOrder(w)[16..24];
    assert bs[32..36] == EncodeQuantity(w)[0..4];
    assert bs[40..48] == EncodeReceipt(w)[0..8];
    assert bs[48..52] == EncodeReceipt(w)[8..12];
    assert bs[52..56] == EncodeReceipt(w)[12..16];
  }

  /** Every record survives encode then decode. */
  lemma DecodeEncode(w: WireMbo)
    ensures Decode(Encode(w)) == w
  {
    Pow256Values();
    EncodeFields(w);
    LeRoundTrip(w.publisherId, 2);
    LeRoundTrip(w.instrumentId, 4);
    LeRoundTrip(w.tsEvent, 8);
    LeRoundTrip(w.orderId, 8);
    LeSignedRoundTrip(w.price, 8);
    LeRoundTrip(w.size, 4);
    LeRoundTrip(w.tsRecv, 8);
    LeSignedRoundTrip(w.tsInDelta, 4);
    LeRoundTrip(w.sequence, 4);
  }

  lemma HeadDecoded(bs: seq<byte>)
    requires |bs| == WIRE_MBO_SIZE
    ensures EncodeHead(Decode(bs)) == bs[0..8]
  {
    LeRoundTripBytes(bs[2..4]);
    LeRoundTripBytes(bs[4..8]);
  }

  lemma OrderDecoded(bs: seq<byte>)
    requires |bs| == WIRE_MBO_SIZE
    ensures EncodeOrder(Decode(bs)) == bs[8..32]
  {
    LeRoundTripBytes(bs[8..16]);
    LeRoundTripBytes(bs[16..24]);
    SignedWrittenBack(bs[24..32]);
    SlicePlus(bs, 8, 16, 24);
    SlicePlus(bs, 8, 24, 32);
  }

  lemma QuantityDecoded(bs: seq<byte>)
    requires |bs| == WIRE_MBO_SIZE
    ensures EncodeQuantity(Decode(bs)) == bs[32..40]
  {
    LeRoundTripBytes(bs[32..36]);
  }

  lemma ReceiptDecoded(bs: seq<byte>)
    requires |bs| == WIRE_MBO_SIZE
    ensures EncodeReceipt(Decode(bs)) == bs[40..56]
  {
    LeRoundTripBytes(bs[40..48]);
    SignedWrittenBack(bs[48..52]);
    LeRoundTripBytes(bs[52..56]);
    SlicePlus(bs, 40, 48, 52);
    SlicePlus(bs, 40, 52, 56);
  }

  /** Every 56-byte string survives decode then encode: no byte is lost or padded. */
  lemma EncodeDecode(bs: seq<byte>)
    requires |bs| == WIRE_MBO_SIZE
    ensures Encode(Decode(bs)) == bs
  {
    HeadDecoded(bs);
    OrderDecoded(bs);
    QuantityDecoded(bs);
    ReceiptDecoded(bs);
  }

  // --------------------------------------------------- validate and convert

  datatype ParseError = BadAction | BadSide

  function ToEvent(w: WireMbo): Result<Event, ParseError> {
    if !IsValidAction(w.action) then Failure(BadAction)
    else if !IsValidSide(w.side) then Failure(BadSide)
    else Success(Event(w.tsEvent, w.tsRecv, w.orderId, w.price, w.size, w.sequence,
                       ToAction(w.action), ToSide(w.side), w.flags))
  }

  /** Which reason a record is rejected for: the action is checked first. */
  lemma RejectionReasons(w: WireMbo)
    ensures ToEvent(w) == Failure(BadAction) <==> forall a: Action :: a.Wire() != w.action
    ensures ToEvent(w) == Failure(BadSide) <==>
              (exists a: Action :: a.Wire() == w.action) && forall s: Side :: s.Wire() != w.side
  {
    AlphabetsAreTheEnumerators(w.action);
    AlphabetsAreTheEnumerators(w.side);
  }

  /** The wire record that carries an event; the other fields are free. */
  function FromEvent(e: Event, publisherId: u16, instrumentId: u32, channelId: byte, tsInDelta: i32): WireMbo {
    WireMbo(14, 0xA0, publisherId, instrumentId, e.tsEvent, e.orderId, e.price, e.size, e.flags,
            channelId, e.action.Wire(), e.side.Wire(), e.tsRecv, tsInDelta, e.sequence)
  }

  /** Every event has a wire record that converts back to it, whatever the dropped fields hold. */
  lemma ToEventFromEvent(e: Event, publisherId: u16, instrumentId: u32, channelId: byte, tsInDelta: i32)
    ensures ToEvent(FromEvent(e, publisherId, instrumentId, channelId, tsInDelta)) == Success(e)
  {
    AlphabetsAreTheEnumerators(e.action.Wire());
  }
}
