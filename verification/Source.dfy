/** The byte source: a pump over fixed contents that may deliver less than it is asked for. */
module Source {
  import opened Bytes

  class ByteSource {
    const contents: seq<byte>
    var pos: nat

    ghost predicate Valid()
      reads this
    {
      pos <= |contents|
    }

    function Remaining(): seq<byte>
      reads this
      requires Valid()
    {
      contents[pos..]
    }

    constructor (contents: seq<byte>)
      ensures Valid() && this.contents == contents && pos == 0
    {
      this.contents := contents;
      pos := 0;
    }

    /**
     Fills the front of `dst[from..to]` with the next bytes and says how many. How many is
     the source's choice, except that it returns 0 only when it has to.
     */
    method Read(dst: array<byte>, from: nat, to: nat) returns (n: nat)
      requires Valid()
      requires from <= to <= dst.Length
      modifies `pos, dst
      ensures Valid()
      ensures n <= to - from && pos == old(pos) + n
      ensures n == 0 <==> from == to || old(Remaining()) == []
      ensures dst[from..from + n] == contents[old(pos)..pos]
      ensures dst[..from] == old(dst[..from]) && dst[from + n..] == old(dst[from + n..])
    {
      var most := if to - from < |contents| - pos then to - from else |contents| - pos;
      if most == 0 {
        return 0;
      }
      n :| 1 <= n <= most;
      forall i | 0 <= i < n {
        dst[from + i] := contents[pos + i];
      }
      pos := pos + n;
    }
  }
}
