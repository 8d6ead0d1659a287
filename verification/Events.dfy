/**
 The engine's own market-by-order event and the two closed alphabets that the wire
 bytes are checked against.
 */
module Events {
  import opened Bytes

  datatype Action = Add | Cancel | Modify | Trade | Fill | Clear {
    /** The enumerator's value, which is its wire byte. */
    function Wire(): byte {
      match this
      case Add => 'A' as int
      case Cancel => 'C' as int
      case Modify => 'M' as int
      case Trade => 'T' as int
      case Fill => 'F' as int
      case Clear => 'R' as int
    }
  }

  // `NoSide` is the source's `Side::None`; the plain name is taken by `Option`.
  datatype Side = Bid | Ask | NoSide {
    /** The enumerator's value, which is its wire byte. */
    function Wire(): byte {
      match this
      case Bid => 'B' as int
      case Ask => 'A' as int
      case NoSide => 'N' as int
    }
  }

  datatype Event = Event(
    tsEvent: u64,
    tsRecv: u64,
    orderId: u64,
    price: i64,
    size: u32,
    sequence: u32,
    action: Action,
    side: Side,
    flags: byte)

  predicate IsValidAction(c: byte) {
    c as char in {'A', 'C', 'M', 'T', 'F', 'R'}
  }

  predicate IsValidSide(c: byte) {
    c as char in {'B', 'A', 'N'}
  }

  /** The cast from a checked byte to the enumeration. */
  function ToAction(c: byte): Action
    requires IsValidAction(c)
  {
    match c as char
    case 'A' => Add
    case 'C' => Cancel
    case 'M' => Modify
    case 'T' => Trade
    case 'F' => Fill
    case _ => Clear
  }

  function ToSide(c: byte): Side
    requires IsValidSide(c)
  {
    match c as char
    case 'B' => Bid
    case 'A' => Ask
    case _ => NoSide
  }

  /** The checked bytes are exactly the enumerators' values, and the cast inverts `Wire`. */
  lemma AlphabetsAreTheEnumerators(c: byte)
    ensures IsValidAction(c) <==> exists a: Action :: a.Wire() == c
    ensures IsValidSide(c) <==> exists s: Side :: s.Wire() == c
    ensures IsValidAction(c) ==> ToAction(c).Wire() == c
    ensures IsValidSide(c) ==> ToSide(c).Wire() == c
    ensures Add.Wire() == 0x41 && Cancel.Wire() == 0x43 && Modify.Wire() == 0x4D
    ensures Trade.Wire() == 0x54 && Fill.Wire() == 0x46 && Clear.Wire() == 0x52
    ensures Bid.Wire() == 0x42 && Ask.Wire() == 0x41 && NoSide.Wire() == 0x4E
    ensures forall a: Action :: IsValidAction(a.Wire()) && ToAction(a.Wire()) == a
    ensures forall s: Side :: IsValidSide(s.Wire()) && ToSide(s.Wire()) == s
  {
    if IsValidAction(c) {
      assert ToAction(c).Wire() == c;
    }
    if IsValidSide(c) {
      assert ToSide(c).Wire() == c;
    }
  }
}
