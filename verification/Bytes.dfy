/**
 Bytes, machine integers and the little-endian codec. The codec is defined once, for
 any width; the fixed widths of the wire record are instances of it.
 */
module Bytes {
  import opened Sequences

  type byte = x: int | 0 <= x < 0x100
  type u16 = x: int | 0 <= x < 0x1_0000
  type u32 = x: int | 0 <= x < 0x1_0000_0000
  type u64 = x: int | 0 <= x < 0x1_0000_0000_0000_0000
  type i32 = x: int | -0x8000_0000 <= x < 0x8000_0000
  type i64 = x: int | -0x8000_0000_0000_0000 <= x < 0x8000_0000_0000_0000

  /** One past the largest `u64`, and so one past the largest `size_t`. */
  const U64_END: nat := 0x1_0000_0000_0000_0000

  /** `++x` on a `u64`, wrap-around included. */
  function Increment(x: u64): (y: u64)
    ensures y == if x == 0xFFFF_FFFF_FFFF_FFFF then 0 else x + 1
  {
    (x + 1) % U64_END
  }

  // ---------------------------------------------------------------- unsigned

  function Pow256(width: nat): (p: int)
    ensures p >= 1
  {
    if width == 0 then 1 else 256 * Pow256(width - 1)
  }

  /** The unsigned number a little-endian byte string stands for. */
  function LeToNat(bs: seq<byte>): nat {
    if bs == [] then 0 else bs[0] + 256 * LeToNat(bs[1..])
  }

  /** The low `width` bytes of a number, least significant byte first. */
  function NatToLe(n: nat, width: nat): (bs: seq<byte>)
    ensures |bs| == width
  {
    if width == 0 then [] else [n % 256] + NatToLe(n / 256, width - 1)
  }

  lemma Pow256Values()
    ensures Pow256(1) == 0x100
    ensures Pow256(2) == 0x1_0000
    ensures Pow256(4) == 0x1_0000_0000
    ensures Pow256(8) == 0x1_0000_0000_0000_0000
  {
    assert Pow256(1) == 256 * Pow256(0);
    assert Pow256(2) == 256 * Pow256(1);
    assert Pow256(3) == 256 * Pow256(2);
    assert Pow256(4) == 256 * Pow256(3);
    assert Pow256(5) == 256 * Pow256(4);
    assert Pow256(6) == 256 * Pow256(5);
    assert Pow256(7) == 256 * Pow256(6);
  }

  lemma {:induction false} LeBound(bs: seq<byte>)
    ensures LeToNat(bs) < Pow256(|bs|)
  {
    if bs != [] {
      LeBound(bs[1..]);
    }
  }

  /** Bytes further back weigh more: what stands behind `a` counts 256 to the length of `a` times. */
  lemma {:induction false} LePlus(a: seq<byte>, b: seq<byte>)
    ensures LeToNat(a + b) == LeToNat(a) + Pow256(|a|) * LeToNat(b)
  {
    if a == [] {
      EmptyPlus(b);
    } else {
      RestOfPlus(a, b);
      LePlus(a[1..], b);
      assert 256 * (Pow256(|a| - 1) * LeToNat(b)) == Pow256(|a|) * LeToNat(b);
    }
  }

  lemma LeSingle(b: byte)
    ensures LeToNat([b]) == b
  {
    assert [b][1..] == [];
  }

  /** One more byte at the end, which is the most significant one. */
  lemma LeLast(bs: seq<byte>, b: byte)
    ensures LeToNat(bs + [b]) == LeToNat(bs) + Pow256(|bs|) * b
  {
    LePlus(bs, [b]);
    LeSingle(b);
  }

  /** The place values of the widths in use, least significant byte first. */
  lemma PlaceValues(bs: seq<byte>)
    ensures |bs| == 2 ==> LeToNat(bs) == bs[0] as int + 0x100 * (bs[1] as int)
    ensures |bs| == 4 ==>
              LeToNat(bs) == bs[0] as int + 0x100 * (bs[1] as int)
                             + 0x1_0000 * (bs[2] as int) + 0x100_0000 * (bs[3] as int)
    ensures |bs| == 8 ==>
              LeToNat(bs) == bs[0] as int + 0x100 * (bs[1] as int)
                             + 0x1_0000 * (bs[2] as int) + 0x100_0000 * (bs[3] as int)
                             + 0x1_0000_0000 * (bs[4] as int + 0x100 * (bs[5] as int)
                                                + 0x1_0000 * (bs[6] as int) + 0x100_0000 * (bs[7] as int))
  {
    if |bs| == 8 {
      PlaceValues(bs[..4]);
      PlaceValues(bs[4..]);
      SplitAt(bs, 4);
      LePlus(bs[..4], bs[4..]);
      Pow256Values();
    } else if |bs| == 4 {
      PlaceValues(bs[..2]);
      PlaceValues(bs[2..]);
      SplitAt(bs, 2);
      LePlus(bs[..2], bs[2..]);
      Pow256Values();
    } else if |bs| == 2 {
      assert bs[1..][1..] == [];
    }
  }

  /** Every number that fits in `width` bytes survives encode then decode. */
  lemma {:induction false} LeRoundTrip(n: nat, width: nat)
    requires n < Pow256(width)
    ensures LeToNat(NatToLe(n, width)) == n
  {
    if width > 0 {
      LeRoundTrip(n / 256, width - 1);
      assert NatToLe(n, width)[1..] == NatToLe(n / 256, width - 1);
    }
  }

  /** Every byte string survives decode then encode. */
  lemma {:induction false} LeRoundTripBytes(bs: seq<byte>)
    ensures NatToLe(LeToNat(bs), |bs|) == bs
  {
    if bs != [] {
      LeRoundTripBytes(bs[1..]);
      assert LeToNat(bs) % 256 == bs[0] && LeToNat(bs) / 256 == LeToNat(bs[1..]);
    }
  }

  // ------------------------------------------------------- two's complement

  /** Reads an unsigned number of `width` bytes as two's complement. */
  function ToSigned(n: nat, width: nat): int {
    if 2 * n < Pow256(width) then n else n - Pow256(width)
  }

  function ToUnsigned(v: int, width: nat): int {
    if v >= 0 then v else v + Pow256(width)
  }

  /** A signed number fits in `width` bytes. */
  ghost predicate FitsSigned(v: int, width: nat) {
    -Pow256(width) <= 2 * v < Pow256(width)
  }

  lemma SignedRoundTrip(v: int, width: nat)
    requires FitsSigned(v, width)
    ensures 0 <= ToUnsigned(v, width) < Pow256(width)
    ensures ToSigned(ToUnsigned(v, width), width) == v
  {
  }

  lemma UnsignedRoundTrip(n: nat, width: nat)
    requires n < Pow256(width)
    ensures FitsSigned(ToSigned(n, width), width)
    ensures ToUnsigned(ToSigned(n, width), width) == n
  {
  }

  /** Two's complement: the number read is in range and differs from the unsigned one by nothing or the whole range. */
  lemma ToSignedByRange(n: nat, width: nat)
    requires n < Pow256(width)
    ensures FitsSigned(ToSigned(n, width), width)
    ensures ToSigned(n, width) == n || ToSigned(n, width) == n - Pow256(width)
  {
  }

  lemma TopByteDecides(low: nat, unit: nat, top: byte)
    requires low < unit
    ensures 2 * (low + unit * top) < 256 * unit <==> top < 0x80
  {
    if top < 0x80 {
      assert unit * top <= unit * 0x7F;
    } else {
      assert unit * top >= unit * 0x80;
    }
  }

  /**
   The sign bit is the top bit of the last byte: with it the whole range is taken off, and
   without it the bytes are worth what they are worth unsigned.
   */
  lemma SignBit(bs: seq<byte>)
    requires bs != []
    ensures ToSigned(LeToNat(bs), |bs|) ==
              LeToNat(bs) - (if bs[|bs| - 1] >= 0x80 then Pow256(|bs|) else 0)
    ensures FitsSigned(ToSigned(LeToNat(bs), |bs|), |bs|)
  {
    var init, last := bs[..|bs| - 1], bs[|bs| - 1];
    SplitAt(bs, |bs| - 1);
    assert bs[|bs| - 1..] == [last];
    LeLast(init, last);
    LeBound(init);
    TopByteDecides(LeToNat(init), Pow256(|init|), last);
    LeBound(bs);
    ToSignedByRange(LeToNat(bs), |bs|);
  }

  /** Little-endian two's complement, any width: encode then decode. */
  lemma LeSignedRoundTrip(v: int, width: nat)
    requires FitsSigned(v, width)
    ensures var n := ToUnsigned(v, width);
            n >= 0 && ToSigned(LeToNat(NatToLe(n, width)), width) == v
  {
    SignedRoundTrip(v, width);
    LeRoundTrip(ToUnsigned(v, width), width);
  }

  /** Little-endian two's complement, any width: decode then encode. */
  lemma LeSignedRoundTripBytes(bs: seq<byte>)
    ensures var n := ToUnsigned(ToSigned(LeToNat(bs), |bs|), |bs|);
            n >= 0 && NatToLe(n, |bs|) == bs
  {
    LeBound(bs);
    UnsignedRoundTrip(LeToNat(bs), |bs|);
    LeRoundTripBytes(bs);
  }

  // ------------------------------------------------------ the widths in use

  function ReadU16(bs: seq<byte>): u16
    requires |bs| == 2
  {
    LeBound(bs); Pow256Values();
    LeToNat(bs)
  }

  function ReadU32(bs: seq<byte>): u32
    requires |bs| == 4
  {
    LeBound(bs); Pow256Values();
    LeToNat(bs)
  }

  function ReadU64(bs: seq<byte>): u64
    requires |bs| == 8
  {
    LeBound(bs); Pow256Values();
    LeToNat(bs)
  }

  function ReadI32(bs: seq<byte>): i32
    requires |bs| == 4
  {
    LeBound(bs); Pow256Values();
    ToSigned(LeToNat(bs), 4)
  }

  function ReadI64(bs: seq<byte>): i64
    requires |bs| == 8
  {
    LeBound(bs); Pow256Values();
    ToSigned(LeToNat(bs), 8)
  }

  function WriteI32(v: i32): (bs: seq<byte>)
    ensures |bs| == 4
  {
    Pow256Values();
    NatToLe(ToUnsigned(v, 4), 4)
  }

  function WriteI64(v: i64): (bs: seq<byte>)
    ensures |bs| == 8
  {
    Pow256Values();
    NatToLe(ToUnsigned(v, 8), 8)
  }

  lemma SignedWrittenBack(bs: seq<byte>)
    ensures |bs| == 4 ==> WriteI32(ReadI32(bs)) == bs
    ensures |bs| == 8 ==> WriteI64(ReadI64(bs)) == bs
  {
    LeSignedRoundTripBytes(bs);
  }
}
