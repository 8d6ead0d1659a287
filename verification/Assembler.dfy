/**
 The record assembler: a growable buffer that keeps the bytes of a record split across
 chunks and hands out views into its own memory.
 */
module Assembler {
  import opened Bytes
  import opened Framing
  import opened Sequences
  import opened Stream

  /** A view of someone's storage: no copy, so it is only as good as the storage. */
  datatype Span = Span(data: array<byte>, from: nat, to: nat) {
    predicate InBounds() {
      from <= to <= data.Length
    }

    function Bytes(): seq<byte>
      reads data
      requires InBounds()
    {
      data[from..to]
    }
  }

  datatype Pull = Record(record: Span) | NeedMore | Corrupt

  /**
   `views` lie one behind the other in `data`, from its front up to `readPos`, and with
   `held` as the data's contents each of them holds its record: the last ones handed out.
   */
  ghost predicate ViewsIntact(views: seq<Span>, data: array<byte>, held: seq<byte>, readPos: nat, handed: seq<Frame>)
    requires readPos <= |held|
    decreases |views|
  {
    if views == [] then readPos == 0
    else
      var last := views[|views| - 1];
      && last.data == data && last.from <= last.to == readPos
      && handed != [] && held[last.from..last.to] == handed[|handed| - 1]
      && ViewsIntact(views[..|views| - 1], data, held, last.from, handed[..|handed| - 1])
  }

  lemma IssueView(views: seq<Span>, data: array<byte>, held: seq<byte>, readPos: nat, handed: seq<Frame>, f: Frame)
    requires readPos + |f| <= |held|
    requires ViewsIntact(views, data, held, readPos, handed)
    requires held[readPos..readPos + |f|] == f
    ensures ViewsIntact(views + [Span(data, readPos, readPos + |f|)], data, held, readPos + |f|, handed + [f])
  {
    var longer := views + [Span(data, readPos, readPos + |f|)];
    assert longer[..|longer| - 1] == views;
    assert (handed + [f])[..|handed|] == handed;
  }

  /** What intact views are, one by one: in the data, adjacent, and each with its record. */
  lemma {:induction false} IntactView(views: seq<Span>, data: array<byte>, held: seq<byte>, readPos: nat,
                                      handed: seq<Frame>, i: nat)
    requires readPos <= |held|
    requires ViewsIntact(views, data, held, readPos, handed)
    requires i < |views|
    ensures |views| <= |handed|
    ensures views[i].data == data && views[i].from <= views[i].to <= readPos
    ensures views[i].from == if i == 0 then 0 else views[i - 1].to
    ensures held[views[i].from..views[i].to] == handed[|handed| - |views| + i]
    decreases |views|
  {
    var last := views[|views| - 1];
    var others := views[..|views| - 1];
    if others != [] {
      IntactView(others, data, held, last.from, handed[..|handed| - 1], if i < |others| then i else i - 1);
    }
  }

  class RecordAssembler {
    var buf: array<byte>  // the vector's storage; its length is the capacity
    var size: nat         // the vector's size
    var readPos: nat      // advanced by Next, reset by Append

    // What the run has been so far.
    ghost var fed: seq<byte>       // every byte ever appended
    ghost var handed: seq<Frame>   // every record ever handed out
    ghost var issued: seq<Span>    // the views handed out since the last append
    ghost var appends: nat
    ghost var slid: nat            // bytes moved by compaction

    function Unconsumed(): seq<byte>
      reads this, buf
      requires readPos <= size <= buf.Length
    {
      buf[..size][readPos..]
    }

    ghost predicate Valid()
      reads this, buf
    {
      && readPos <= size <= buf.Length
      && fed == Concat(handed) + Unconsumed()
      && ViewsIntact(issued, buf, buf[..size], readPos, handed)
    }

    constructor ()
      ensures Valid() && fresh(buf)
      ensures fed == [] && handed == [] && size == 0 && appends == 0 && slid == 0
    {
      buf := new byte[0];
      size, readPos := 0, 0;
      fed, handed, issued, appends, slid := [], [], [], 0, 0;
    }

    /** Slides the unconsumed bytes to the front of the buffer. */
    method Compact()
      requires readPos <= size <= buf.Length
      modifies `readPos, `size, buf
      ensures readPos == 0 && size == old(size) - old(readPos)
      ensures buf[..size] == old(Unconsumed())
    {
      ghost var kept := Unconsumed();
      var from, n := readPos, size - readPos;
      var i := 0;
      while i < n
        modifies buf
        invariant 0 <= i <= n
        invariant forall k :: 0 <= k < i ==> buf[k] == kept[k]
        invariant forall k :: i <= k < n ==> buf[from + k] == kept[k]
      {
        buf[i] := buf[from + i];
        i := i + 1;
      }
      readPos, size := 0, n;
      assert buf[..size] == kept;
    }

    /** Makes room for `n` more bytes. How much more than that is the vector's own affair. */
    method Reserve(n: nat)
      requires size <= buf.Length
      modifies `buf
      ensures buf == old(buf) || fresh(buf)
      ensures size + n <= buf.Length
      ensures buf[..size] == old(buf[..size])
    {
      if size + n > buf.Length {
        var capacity: nat :| size + n <= capacity;
        var bigger := new byte[capacity];
        forall i | 0 <= i < size {
          bigger[i] := buf[i];
        }
        buf := bigger;
      }
    }

    /** Inserts a chunk behind the bytes held. */
    method Insert(chunk: Span)
      requires readPos == 0 && size <= buf.Length
      requires chunk.InBounds() && chunk.data != buf
      modifies `buf, `size, buf
      ensures buf == old(buf) || fresh(buf)
      ensures size == old(size) + (chunk.to - chunk.from) <= buf.Length
      ensures buf[..size] == old(buf[..size]) + old(chunk.Bytes())
    {
      ghost var held, added := buf[..size], chunk.Bytes();
      var n := chunk.to - chunk.from;
      Reserve(n);
      forall i | 0 <= i < n {
        buf[size + i] := chunk.data[chunk.from + i];
      }
      size := size + n;
      assert buf[..old(size)] == held;
      assert buf[old(size)..size] == added;
      SplitAt(buf[..size], old(size));
    }

    /**
     Adds a chunk, reclaiming the consumed bytes first. No record is lost or invented, and
     no view survives.
     */
    method Append(chunk: Span)
      requires Valid()
      requires chunk.InBounds() && chunk.data != buf
      modifies this, buf
      ensures Valid()
      ensures buf == old(buf) || fresh(buf)
      ensures fed == old(fed) + old(chunk.Bytes())
      ensures Unconsumed() == old(Unconsumed()) + old(chunk.Bytes())
      ensures handed == old(handed) && issued == []
      ensures size == |Unconsumed()| && appends == old(appends) + 1
      ensures slid == old(slid) + if old(readPos) == 0 then 0 else |old(Unconsumed())|
    {
      ghost var held, added := Unconsumed(), chunk.Bytes();
      if readPos != 0 {
        slid := slid + (size - readPos);
        Compact();
      }
      Insert(chunk);
      fed, issued, appends := fed + added, [], appends + 1;
      PlusAssoc(Concat(handed), held, added);
    }

    /** Hands out the whole record at the front, `n` bytes long, as a view. */
    method Take(n: nat) returns (record: Span)
      requires Valid()
      requires FrameOne(Unconsumed()).Ok? && n == |Front(Unconsumed())|
      modifies `readPos, `handed, `issued
      ensures Valid()
      ensures record.InBounds() && record.Bytes() == Front(old(Unconsumed()))
      ensures issued == old(issued) + [record]
      ensures handed == old(handed) + [Front(old(Unconsumed()))]
      ensures Unconsumed() == old(Unconsumed())[n..]
    {
      ghost var held, f := buf[..size], Front(Unconsumed());
      SliceOfSlice(held, readPos, n);
      assert held[readPos..readPos + n] == f;
      ConsumeFront(fed, handed, Unconsumed(), f);
      IssueView(issued, buf, held, readPos, handed, f);
      record := Span(buf, readPos, readPos + n);
      assert record.Bytes() == f by {
        SliceOfPrefix(buf[..], size, readPos, readPos + n);
      }
      readPos := readPos + n;
      handed, issued := handed + [f], issued + [record];
    }

    /**
     Pulls the next whole record from the front. Only the read position moves: the buffer
     is not written, so every view issued since the last append stays intact.
     */
    method Next() returns (p: Pull)
      requires Valid()
      modifies `readPos, `handed, `issued
      ensures Valid()
      ensures match FrameOne(old(Unconsumed()))
              case Ok(_, recordSize) =>
                var f := Front(old(Unconsumed()));
                && p.Record? && p.record.InBounds() && p.record.Bytes() == f
                && issued == old(issued) + [p.record]
                && handed == old(handed) + [f]
                && Unconsumed() == old(Unconsumed())[recordSize..]
              case NeedMore => p.NeedMore? && unchanged(this)
              case Corrupt => p.Corrupt? && unchanged(this)
    {
      var r := FrameOne(Unconsumed());
      match r
      case Ok(_, recordSize) =>
        var record := Take(recordSize);
        p := Record(record);
      case NeedMore =>
        p := Pull.NeedMore;
      case Corrupt =>
        p := Pull.Corrupt;
    }

    /**
     Reads a record through its view. Only views issued since the last append may be read,
     and each reads as the record it was issued for.
     */
    function Load(view: Span): (bs: seq<byte>)
      reads this, buf, view.data
      requires Valid()
      requires view in issued
      ensures |issued| <= |handed|
      ensures forall i :: 0 <= i < |issued| && issued[i] == view ==> bs == handed[|handed| - |issued| + i]
    {
      ViewReads(this, view);
      view.Bytes()
    }

    function Buffered(): nat
      reads this
      requires readPos <= size
    {
      size - readPos
    }
  }

  /** A view issued since the last append still holds the record it was issued for. */
  lemma ViewHolds(a: RecordAssembler, i: nat)
    requires a.Valid() && i < |a.issued|
    ensures |a.issued| <= |a.handed|
    ensures a.issued[i].data == a.buf && a.issued[i].InBounds()
    ensures a.issued[i].Bytes() == a.handed[|a.handed| - |a.issued| + i]
  {
    var v := a.issued[i];
    IntactView(a.issued, a.buf, a.buf[..a.size], a.readPos, a.handed, i);
    SliceOfPrefix(a.buf[..], a.size, v.from, v.to);
  }

  lemma ViewReads(a: RecordAssembler, view: Span)
    requires a.Valid() && view in a.issued
    ensures |a.issued| <= |a.handed| && view.InBounds()
    ensures forall i :: 0 <= i < |a.issued| && a.issued[i] == view ==>
              view.Bytes() == a.handed[|a.handed| - |a.issued| + i]
  {
    var k :| 0 <= k < |a.issued| && a.issued[k] == view;
    ViewHolds(a, k);
    forall i | 0 <= i < |a.issued| && a.issued[i] == view
      ensures view.Bytes() == a.handed[|a.handed| - |a.issued| + i]
    {
      ViewHolds(a, i);
    }
  }

  lemma ConsumeFront(fed: seq<byte>, handed: seq<Frame>, held: seq<byte>, f: Frame)
    requires fed == Concat(handed) + held
    requires f <= held
    ensures fed == Concat(handed + [f]) + held[|f|..]
  {
    ConcatAppend(handed, [f]);
    SingleFrame(f);
    SplitAt(held, |f|);
    PlusAssoc(Concat(handed), f, held[|f|..]);
  }

  /**
   However a stream was cut into chunks, and however appends and pulls alternated: the
   records handed out so far are the first frames of the bytes fed so far, and all of them
   once the assembler has nothing more to hand out.
   */
  lemma HandedIsThePrefixOfTheParse(a: RecordAssembler)
    requires a.Valid()
    ensures Frames(a.fed) == a.handed + Frames(a.Unconsumed())
    ensures !FrameOne(a.Unconsumed()).Ok? ==>
              a.handed == Frames(a.fed) && a.Unconsumed() == Tail(a.fed)
  {
    ParseBehindFrames(a.handed, a.Unconsumed());
    EmptyPlus(a.handed);
  }

  /** Two assemblers fed the same bytes in any two ways hand out the same records and keep the same tail. */
  lemma ChunkingIndependence(a: RecordAssembler, b: RecordAssembler)
    requires a.Valid() && b.Valid()
    requires a.fed == b.fed
    requires !FrameOne(a.Unconsumed()).Ok? && !FrameOne(b.Unconsumed()).Ok?
    ensures a.handed == b.handed && a.Unconsumed() == b.Unconsumed()
  {
    HandedIsThePrefixOfTheParse(a);
    HandedIsThePrefixOfTheParse(b);
  }

  /** The views issued since the last append are disjoint, in the order they were issued. */
  lemma ViewsAreDisjoint(a: RecordAssembler, i: nat, j: nat)
    requires a.Valid()
    requires i < j < |a.issued|
    ensures a.issued[i].to <= a.issued[j].from
    decreases j - i
  {
    IntactView(a.issued, a.buf, a.buf[..a.size], a.readPos, a.handed, j - 1);
    IntactView(a.issued, a.buf, a.buf[..a.size], a.readPos, a.handed, j);
    if i + 1 < j {
      ViewsAreDisjoint(a, i, j - 1);
    }
  }

  // ------------------------------------------------------------ whole runs

  /** One use of an assembler: feeding it a chunk, or pulling from it. */
  datatype Use = Feed(chunk: seq<byte>) | PullOne

  function FedBy(script: seq<Use>): seq<byte> {
    if script == [] then []
    else FedBy(script[..|script| - 1]) + match script[|script| - 1] case Feed(chunk) => chunk case PullOne => []
  }

  lemma FedByOne(use: Use)
    ensures FedBy([use]) == match use case Feed(chunk) => chunk case PullOne => []
  {
    assert [use][..0] == [];
  }

  /** The bytes fed are the chunks, one behind the other. */
  lemma {:induction false} FedByPlus(a: seq<Use>, b: seq<Use>)
    ensures FedBy(a + b) == FedBy(a) + FedBy(b)
    decreases |b|
  {
    if b == [] {
      EmptyPlus(a);
    } else {
      var init := b[..|b| - 1];
      assert (a + b)[..|a + b| - 1] == a + init;
      FedByPlus(a, init);
    }
  }

  ghost function PullsIn(script: seq<Use>): nat {
    multiset(script)[PullOne]
  }

  /** The whole records in the bytes a script feeds. */
  function FramesFedBy(script: seq<Use>): seq<Frame> {
    Frames(FedBy(script))
  }

  /** How many records an assembler has handed out: each pull takes one if there is one. */
  ghost function Served(script: seq<Use>): nat {
    if script == [] then 0
    else
      var init := script[..|script| - 1];
      if script[|script| - 1].PullOne? && Served(init) < |FramesFedBy(init)| then Served(init) + 1 else Served(init)
  }

  lemma OneMoreUse(script: seq<Use>, k: nat)
    requires k < |script|
    ensures var init := script[..|script| - 1];
            PullsIn(script[k..]) == PullsIn(init[k..]) + if script[|script| - 1].PullOne? then 1 else 0
    ensures script[..k] == script[..|script| - 1][..k]
  {
    var init, last := script[..|script| - 1], script[|script| - 1];
    assert script[k..] == init[k..] + [last];
  }

  /**
   At any point of a script, no more records come out than had been fed by then and the
   pulls after it.
   */
  lemma {:induction false} ServedAtMost(script: seq<Use>, k: nat)
    requires k <= |script|
    ensures Served(script) <= |FramesFedBy(script[..k])| + PullsIn(script[k..])
    decreases |script|
  {
    if k == |script| {
      assert script[..k] == script;
      if script != [] {
        var init := script[..k - 1];
        assert init[..k - 1] == init;
        ServedAtMost(init, k - 1);
        FedOnlyGrows(script, k - 1);
      }
    } else {
      ServedAtMost(script[..|script| - 1], k);
      OneMoreUse(script, k);
    }
  }

  lemma FedOnlyGrows(script: seq<Use>, k: nat)
    requires k <= |script|
    ensures FramesFedBy(script[..k]) <= FramesFedBy(script)
  {
    SplitAt(script, k);
    FedByPlus(script[..k], script[k..]);
    TruncationMonotone(FedBy(script[..k]), FedBy(script[k..]));
  }

  /** A last pull that finds nothing leaves the assembler dry: all there was has been handed out. */
  lemma DryAfter(script: seq<Use>)
    requires script != [] && script[|script| - 1].PullOne?
    requires Served(script) == Served(script[..|script| - 1])
    ensures Served(script) == |FramesFedBy(script[..|script|])| + PullsIn(script[|script|..])
  {
    var init := script[..|script| - 1];
    ServedAtMost(init, |init|);
    assert init[..|init|] == init && script[..|script|] == script;
    EmptyPlus(FedBy(init));
  }

  /** And at some point, the last one at which the assembler was dry, it is exactly that many. */
  lemma {:induction false} ServedExactly(script: seq<Use>) returns (k: nat)
    ensures k <= |script|
    ensures Served(script) == |FramesFedBy(script[..k])| + PullsIn(script[k..])
    decreases |script|
  {
    k := 0;
    if script != [] {
      var init := script[..|script| - 1];
      k := ServedExactly(init);
      OneMoreUse(script, k);
      if script[|script| - 1].PullOne? && Served(script) == Served(init) {
        DryAfter(script);
        k := |script|;
      }
    }
  }

  /** What had been fed at some point comes out if enough pulls follow, and otherwise each of those brings a record. */
  lemma {:induction false} ServedAtLeast(script: seq<Use>, k: nat)
    requires k <= |script|
    ensures Served(script) >= |FramesFedBy(script[..k])| || Served(script) >= PullsIn(script[k..])
    decreases |script|
  {
    if k < |script| {
      var init := script[..|script| - 1];
      ServedAtLeast(init, k);
      OneMoreUse(script, k);
      FedOnlyGrows(init, k);
    }
  }

  /** The number served is the least of these bounds, over all points of the script. */
  lemma ServedIsTheLeast(script: seq<Use>)
    ensures forall k :: 0 <= k <= |script| ==> Served(script) <= |FramesFedBy(script[..k])| + PullsIn(script[k..])
    ensures exists k :: 0 <= k <= |script| && Served(script) == |FramesFedBy(script[..k])| + PullsIn(script[k..])
    ensures forall k :: 0 <= k <= |script| && PullsIn(script[k..]) >= |FramesFedBy(script[..k])| ==>
              Served(script) >= |FramesFedBy(script[..k])|
  {
    var last := ServedExactly(script);
    forall k | 0 <= k <= |script|
      ensures Served(script) <= |FramesFedBy(script[..k])| + PullsIn(script[k..])
      ensures Served(script) >= |FramesFedBy(script[..k])| || Served(script) >= PullsIn(script[k..])
    {
      ServedAtMost(script, k);
      ServedAtLeast(script, k);
    }
  }

  /**
   Any interleaving of appends and pulls: the records handed out and the bytes left over are
   together the bytes fed, in order, and the records are the first frames of those bytes. How
   many is settled by the script: the least, over all its points, of the frames fed by then
   and the pulls from then on. So an assembler never hands out more than it was asked for,
   and never withholds a record that is there.
   */
  method Interleave(script: seq<Use>) returns (records: seq<Frame>, left: seq<byte>)
    ensures Concat(records) + left == FedBy(script)
    ensures records <= Frames(FedBy(script))
    ensures !FrameOne(left).Ok? ==> records == Frames(FedBy(script)) && left == Tail(FedBy(script))
    ensures forall k :: 0 <= k <= |script| ==> |records| <= |FramesFedBy(script[..k])| + PullsIn(script[k..])
    ensures exists k :: 0 <= k <= |script| && |records| == |FramesFedBy(script[..k])| + PullsIn(script[k..])
    ensures forall k :: 0 <= k <= |script| && PullsIn(script[k..]) >= |FramesFedBy(script[..k])| ==>
              FramesFedBy(script[..k]) <= records
  {
    var a := new RecordAssembler();
    records := [];
    for k := 0 to |script|
      invariant fresh(a) && fresh(a.buf) && a.Valid()
      invariant a.handed == records
      invariant a.fed == FedBy(script[..k])
      invariant |records| == Served(script[..k])
    {
      assert script[..k + 1][..k] == script[..k];
      match script[k]
      case Feed(chunk) =>
        FeedCopy(a, chunk);
      case PullOne =>
        EmptyPlus(a.fed);
        var more := PullCopy(a);
        records := records + more;
    }
    assert script[..|script|] == script;
    left := a.Unconsumed();
    HandedIsThePrefixOfTheParse(a);
    ServedIsTheLeast(script);
    forall k | 0 <= k <= |script| && PullsIn(script[k..]) >= |FramesFedBy(script[..k])|
      ensures FramesFedBy(script[..k]) <= records
    {
      FedOnlyGrows(script, k);
    }
  }

  /** Appends a chunk from storage of its own. */
  method FeedCopy(a: RecordAssembler, chunk: seq<byte>)
    requires a.Valid()
    modifies a, a.buf
    ensures a.Valid() && (a.buf == old(a.buf) || fresh(a.buf))
    ensures a.fed == old(a.fed) + chunk && a.handed == old(a.handed)
  {
    var storage := new byte[|chunk|](i requires 0 <= i < |chunk| => chunk[i]);
    assert storage[..] == chunk;
    a.Append(Span(storage, 0, |chunk|));
  }

  /** Pulls once and copies the record out through its view. */
  method PullCopy(a: RecordAssembler) returns (records: seq<Frame>)
    requires a.Valid()
    modifies a
    ensures a.Valid() && a.buf == old(a.buf)
    ensures a.fed == old(a.fed) && a.handed == old(a.handed) + records
    ensures |records| == if old(|a.handed| < |Frames(a.fed)|) then 1 else 0
  {
    HandedIsThePrefixOfTheParse(a);
    ghost var held := a.Unconsumed();
    var p := a.Next();
    if p.Record? {
      var record := a.Load(p.record);
      assert record == Front(held);
      records := [record];
    } else {
      EmptyPlus(a.handed);
      records := [];
    }
  }
}
