/**
 The owner of a whole-file mapping, and the process's address space it maps into. The
 protocol proved here: a region is unmapped exactly once, by its one owner.
 */
module MappedFile {
  import opened Bytes
  import opened Sequences
  import opened Wrappers

  /** One munmap call: the region and the length it was called with. */
  datatype Unmap = Unmap(region: array<byte>, size: nat)

  ghost predicate Released(unmaps: seq<Unmap>, r: array<byte>) {
    exists k :: 0 <= k < |unmaps| && unmaps[k].region == r
  }

  /** What the operating system knows about the process's mappings. */
  class AddressSpace {
    ghost var mapped: set<array<byte>>  // every region there ever was
    ghost var live: set<array<byte>>    // the regions mapped now
    ghost var unmaps: seq<Unmap>        // every munmap call so far

    /**
     Every region that is no longer live was unmapped exactly once, with its own size, and
     nothing else was ever unmapped.
     */
    ghost predicate Valid()
      reads this
    {
      && live <= mapped
      && (forall k :: 0 <= k < |unmaps| ==>
            unmaps[k].region in mapped && unmaps[k].region !in live && unmaps[k].size == unmaps[k].region.Length)
      && (forall r :: r in mapped && r !in live ==> Released(unmaps, r))
      && (forall i, j :: 0 <= i < j < |unmaps| ==> unmaps[i].region != unmaps[j].region)
    }

    constructor ()
      ensures Valid() && mapped == {} && live == {} && unmaps == []
    {
      mapped, live, unmaps := {}, {}, [];
    }

    /** Maps a file with these contents; the operating system refuses a length of zero. */
    method Mmap(contents: seq<byte>) returns (region: array<byte>)
      requires Valid()
      requires contents != []
      modifies this
      ensures Valid()
      ensures fresh(region) && region[..] == contents
      ensures live == old(live) + {region} && mapped == old(mapped) + {region} && unmaps == old(unmaps)
    {
      region := new byte[|contents|](i requires 0 <= i < |contents| => contents[i]);
      mapped, live := mapped + {region}, live + {region};
    }

    /** Unmaps a region. Calling it on a region that is not mapped, or with another length, is undefined. */
    method Munmap(region: array<byte>, size: nat)
      requires Valid()
      requires region in live && size == region.Length
      modifies this
      ensures Valid()
      ensures live == old(live) - {region} && mapped == old(mapped)
      ensures unmaps == old(unmaps) + [Unmap(region, size)]
    {
      ghost var before := unmaps;
      live, unmaps := live - {region}, unmaps + [Unmap(region, size)];
      assert unmaps[|before|].region == region;
      forall r | Released(before, r)
        ensures Released(unmaps, r)
      {
        var k :| 0 <= k < |before| && before[k].region == r;
        assert unmaps[k].region == r;
      }
    }
  }

  class MemoryMappedFile {
    const space: AddressSpace
    var data: array?<byte>  // null is the empty view
    var size: nat

    /** The view is the whole of a live region, or empty. */
    ghost predicate Valid()
      reads this, space
    {
      && space.Valid()
      && (data == null ==> size == 0)
      && (data != null ==> data in space.live && size == data.Length > 0)
    }

    function Bytes(): seq<byte>
      reads this, data
      requires data != null ==> size <= data.Length
    {
      if data == null then [] else data[..size]
    }

    constructor Map(space: AddressSpace, contents: seq<byte>)
      requires space.Valid()
      modifies space
      ensures Valid() && this.space == space
      ensures Bytes() == contents
      ensures data == null <==> contents == []
      ensures data == null ==> space.live == old(space.live) && space.mapped == old(space.mapped)
      ensures data != null ==> fresh(data) && space.live == old(space.live) + {data}
      ensures data != null ==> space.mapped == old(space.mapped) + {data}
      ensures space.unmaps == old(space.unmaps)
    {
      this.space := space;
      data, size := null, 0;
      new;
      if contents != [] {
        var region := space.Mmap(contents);
        data, size := region, region.Length;
      }
    }

    /** Takes the view over and leaves the source empty. */
    constructor Move(other: MemoryMappedFile)
      requires other.Valid()
      modifies other
      ensures Valid() && space == other.space && data == old(other.data) && size == old(other.size)
      ensures other.Valid() && other.data == null
    {
      space := other.space;
      data, size := other.data, other.size;
      new;
      other.data := null;
      other.size := 0;
    }

    /** Unmaps what is held, if anything. Releasing twice is releasing once. */
    method Release()
      requires Valid()
      modifies this, space
      ensures Valid() && data == null
      ensures space.mapped == old(space.mapped)
      ensures space.live == if old(data) == null then old(space.live) else old(space.live) - {old(data)}
      ensures space.unmaps ==
                if old(data) == null then old(space.unmaps)
                else old(space.unmaps) + [Unmap(old(data), old(size))]
    {
      if data != null {
        space.Munmap(data, size);
        data := null;
        size := 0;
      }
    }

    /**
     Releases what is held before taking the other's view; assigning to itself changes
     nothing. Two objects never hold the same view: see `Ownership`.
     */
    method MoveAssign(other: MemoryMappedFile)
      requires Valid() && other.Valid() && other.space == space
      requires other == this || data == null || other.data != data
      modifies this, other, space
      ensures Valid() && other.Valid()
      ensures other == this ==> unchanged(this) && unchanged(space)
      ensures other != this ==> data == old(other.data) && size == old(other.size) && other.data == null
      ensures space.mapped == old(space.mapped)
      ensures space.live ==
                if other == this || old(data) == null then old(space.live) else old(space.live) - {old(data)}
      ensures space.unmaps ==
                if other == this || old(data) == null then old(space.unmaps)
                else old(space.unmaps) + [Unmap(old(data), old(size))]
    {
      if this != other {
        Release();
        data := other.data;
        size := other.size;
        other.data := null;
        other.size := 0;
      }
    }
  }

  // ------------------------------------------------------------ whole runs

  /** A program's owner objects; a slot is empty once its object is destroyed. */
  type Slots = seq<MemoryMappedFile?>

  datatype Op =
    | Construct(contents: seq<byte>)
    | MoveConstruct(source: nat)
    | MoveAssignTo(target: nat, source: nat)
    | Destroy(slot: nat)

  predicate IsLive(slots: Slots, i: int) {
    0 <= i < |slots| && slots[i] != null
  }

  /** The operation names objects that exist. */
  predicate Legal(slots: Slots, op: Op) {
    match op
    case Construct(_) => true
    case MoveConstruct(source) => IsLive(slots, source)
    case MoveAssignTo(target, source) => IsLive(slots, target) && IsLive(slots, source)
    case Destroy(slot) => IsLive(slots, slot)
  }

  function Objects(slots: Slots): set<MemoryMappedFile> {
    set i | 0 <= i < |slots| && slots[i] != null :: slots[i]
  }

  /** Slot `i` holds the view of region `r`. */
  ghost predicate Owns(slots: Slots, i: int, r: array<byte>)
    reads Objects(slots)
  {
    IsLive(slots, i) && slots[i].data == r
  }

  /** The slots hold different objects, the live regions are what they hold, and no two hold the same. */
  ghost predicate Ownership(space: AddressSpace, slots: Slots)
    reads space, Objects(slots)
  {
    && space.Valid()
    && (forall i :: IsLive(slots, i) ==> slots[i].space == space && slots[i].Valid())
    && (forall i, j :: IsLive(slots, i) && IsLive(slots, j) && i != j ==>
          slots[i] != slots[j] && (slots[i].data == null || slots[i].data != slots[j].data))
    && (forall r :: r in space.live ==> exists i :: Owns(slots, i, r))
  }

  // The same program without regions or objects: what each slot's file reads as, and how
  // long the mappings were that have been let go of.

  /** The length unmapped when a file is let go of, if there is anything to unmap. */
  function LengthOf(file: Option<seq<byte>>): seq<nat> {
    if file == None || file == Some([]) then [] else [|file.value|]
  }

  datatype World = World(files: seq<Option<seq<byte>>>, released: seq<nat>) {
    predicate Has(i: nat) {
      i < |files| && files[i].Some?
    }

    predicate Allows(op: Op) {
      match op
      case Construct(_) => true
      case MoveConstruct(source) => Has(source)
      case MoveAssignTo(target, source) => Has(target) && Has(source)
      case Destroy(slot) => Has(slot)
    }

    function LetGo(i: nat): seq<nat>
      requires Has(i)
    {
      released + LengthOf(files[i])
    }

    function Do(op: Op): World {
      if !Allows(op) then this
      else
        match op
        case Construct(contents) => World(files + [Some(contents)], released)
        case MoveConstruct(source) => World(files[source := Some([])] + [files[source]], released)
        case MoveAssignTo(target, source) =>
          if target == source then this
          else World(files[target := files[source]][source := Some([])], LetGo(target))
        case Destroy(slot) => World(files[slot := None], LetGo(slot))
    }
  }

  function DoAll(ops: seq<Op>): World {
    if ops == [] then World([], []) else DoAll(ops[..|ops| - 1]).Do(ops[|ops| - 1])
  }

  function Sum(ns: seq<nat>): nat {
    if ns == [] then 0 else ns[0] + Sum(ns[1..])
  }

  function HeldBytes(files: seq<Option<seq<byte>>>): nat {
    if files == [] then 0
    else (if files[0].Some? then |files[0].value| else 0) + HeldBytes(files[1..])
  }

  /** The bytes of all files a program maps. */
  function MappedBytes(ops: seq<Op>): nat {
    if ops == [] then 0
    else MappedBytes(ops[..|ops| - 1]) + match ops[|ops| - 1] case Construct(contents) => |contents| case _ => 0
  }

  lemma {:induction false} SumAppend(ns: seq<nat>, n: nat)
    ensures Sum(ns + [n]) == Sum(ns) + n
  {
    if ns != [] {
      RestOfPlus(ns, [n]);
      SumAppend(ns[1..], n);
    }
  }

  lemma {:induction false} HeldAppend(files: seq<Option<seq<byte>>>, f: Option<seq<byte>>)
    ensures HeldBytes(files + [f]) == HeldBytes(files) + if f.Some? then |f.value| else 0
  {
    if files != [] {
      RestOfPlus(files, [f]);
      HeldAppend(files[1..], f);
    }
  }

  lemma {:induction false} HeldUpdate(files: seq<Option<seq<byte>>>, i: nat, f: Option<seq<byte>>)
    requires i < |files|
    ensures HeldBytes(files[i := f]) ==
              HeldBytes(files) - (if files[i].Some? then |files[i].value| else 0)
              + if f.Some? then |f.value| else 0
  {
    var updated := files[i := f];
    if i == 0 {
      assert updated[1..] == files[1..];
    } else {
      assert updated[1..] == files[1..][i - 1 := f];
      HeldUpdate(files[1..], i - 1, f);
    }
  }

  /** Letting go of a file adds its length to what has been let go of. */
  lemma LetGoAdds(world: World, i: nat)
    requires world.Has(i)
    ensures Sum(world.LetGo(i)) == Sum(world.released) + |world.files[i].value|
  {
    EmptyPlus(world.released);
    SumAppend(world.released, |world.files[i].value|);
  }

  /** One operation neither loses nor duplicates a byte of any mapping. */
  lemma DoConserves(world: World, op: Op)
    ensures var next := world.Do(op);
            HeldBytes(next.files) + Sum(next.released) ==
              HeldBytes(world.files) + Sum(world.released)
              + match op case Construct(contents) => |contents| case _ => 0
  {
    if world.Allows(op) {
      match op
      case Construct(contents) => HeldAppend(world.files, Some(contents));
      case MoveConstruct(source) =>
        HeldUpdate(world.files, source, Some([]));
        HeldAppend(world.files[source := Some([])], world.files[source]);
      case MoveAssignTo(target, source) =>
        if target != source {
          HeldUpdate(world.files, target, world.files[source]);
          HeldUpdate(world.files[target := world.files[source]], source, Some([]));
          LetGoAdds(world, target);
        }
      case Destroy(slot) =>
        HeldUpdate(world.files, slot, None);
        LetGoAdds(world, slot);
    }
  }

  /** Over a whole program, what was mapped is what is still held plus what was unmapped. */
  lemma {:induction false} MappingsAreConserved(ops: seq<Op>)
    ensures HeldBytes(DoAll(ops).files) + Sum(DoAll(ops).released) == MappedBytes(ops)
  {
    if ops != [] {
      MappingsAreConserved(ops[..|ops| - 1]);
      DoConserves(DoAll(ops[..|ops| - 1]), ops[|ops| - 1]);
    }
  }

  // The life of a slot, read off the program.

  /** The program destroys the object in slot `i`, after it was made. */
  ghost predicate Destroys(ops: seq<Op>, i: nat) {
    exists k :: 0 <= k < |ops| && ops[k] == Destroy(i) && i < |DoAll(ops[..k]).files|
  }

  lemma DoneBefore(ops: seq<Op>, k: nat)
    requires ops != [] && k <= |ops| - 1
    ensures ops[..|ops| - 1][..k] == ops[..k]
  {
  }

  /** Slots are made one at a time and never taken away. */
  lemma {:induction false} SlotsAreMade(ops: seq<Op>, k: nat)
    requires k <= |ops|
    ensures |DoAll(ops[..k]).files| <= |DoAll(ops).files| <= |DoAll(ops[..k]).files| + (|ops| - k)
    decreases |ops|
  {
    if k == |ops| {
      assert ops[..k] == ops;
    } else {
      DoneBefore(ops, k);
      SlotsAreMade(ops[..|ops| - 1], k);
    }
  }

  lemma DestroysOneMore(ops: seq<Op>, i: nat)
    requires ops != []
    ensures var init := ops[..|ops| - 1];
            Destroys(ops, i) <==> Destroys(init, i) || (ops[|ops| - 1] == Destroy(i) && i < |DoAll(init).files|)
  {
    var init := ops[..|ops| - 1];
    forall k | 0 <= k < |init|
      ensures init[..k] == ops[..k] && init[k] == ops[k]
    {
      DoneBefore(ops, k);
    }
    if Destroys(init, i) {
      var k :| 0 <= k < |init| && init[k] == Destroy(i) && i < |DoAll(init[..k]).files|;
      assert ops[k] == Destroy(i);
    }
  }

  /** A slot is empty exactly when the program destroyed its object: nothing else ends a life, and nothing undoes it. */
  lemma {:induction false} LifeOfASlot(ops: seq<Op>, i: nat)
    requires i < |DoAll(ops).files|
    ensures DoAll(ops).files[i].None? <==> Destroys(ops, i)
  {
    var init, op := ops[..|ops| - 1], ops[|ops| - 1];
    var world := DoAll(init);
    DestroysOneMore(ops, i);
    if i < |world.files| {
      LifeOfASlot(init, i);
    } else if Destroys(init, i) {
      var k :| 0 <= k < |init| && init[k] == Destroy(i) && i < |DoAll(init[..k]).files|;
      SlotsAreMade(init, k);
      assert false;
    }
  }

  /** After these operations, object `i` exists: it was made and not destroyed. */
  ghost predicate Exists(ops: seq<Op>, i: nat) {
    i < |DoAll(ops).files| && !Destroys(ops, i)
  }

  /**
   One more operation, for every program: what it does to each slot's file and to the
   lengths let go of, and that it does nothing when an object it names does not exist.
   */
  lemma OneMoreOp(ops: seq<Op>, op: Op)
    ensures DoAll([]) == World([], [])
    ensures op.Construct? ==>
              DoAll(ops + [op]) == World(DoAll(ops).files + [Some(op.contents)], DoAll(ops).released)
    ensures op.MoveConstruct? && Exists(ops, op.source) ==>
              var World(files, released) := DoAll(ops);
              DoAll(ops + [op]) == World(files[op.source := Some([])] + [files[op.source]], released)
    ensures op.MoveAssignTo? && Exists(ops, op.target) && Exists(ops, op.source) && op.target != op.source ==>
              var World(files, released) := DoAll(ops);
              DoAll(ops + [op]) == World(files[op.target := files[op.source]][op.source := Some([])],
                                         released + LengthOf(files[op.target]))
    ensures op.Destroy? && Exists(ops, op.slot) ==>
              var World(files, released) := DoAll(ops);
              DoAll(ops + [op]) == World(files[op.slot := None], released + LengthOf(files[op.slot]))
    ensures (op.MoveConstruct? && !Exists(ops, op.source))
            || (op.MoveAssignTo? && (!Exists(ops, op.target) || !Exists(ops, op.source) || op.target == op.source))
            || (op.Destroy? && !Exists(ops, op.slot)) ==>
              DoAll(ops + [op]) == DoAll(ops)
  {
    var before := DoAll(ops);
    assert (ops + [op])[..|ops|] == ops;
    forall i: nat | i < |before.files|
      ensures before.Has(i) <==> !Destroys(ops, i)
    {
      LifeOfASlot(ops, i);
    }
    EmptyPlus(before.released);
  }

  lemma {:induction false} NothingHeld(files: seq<Option<seq<byte>>>)
    requires forall i :: 0 <= i < |files| ==> files[i].None?
    ensures HeldBytes(files) == 0
  {
    if files != [] {
      NothingHeld(files[1..]);
    }
  }

  /** Which region each slot views: none at all without an object, and null for an empty view. */
  ghost function Views(slots: Slots): (views: seq<Option<array?<byte>>>)
    reads Objects(slots)
    ensures |views| == |slots|
    ensures forall i :: 0 <= i < |slots| ==> views[i] == if slots[i] == null then None else Some(slots[i].data)
  {
    seq(|slots|, i requires 0 <= i < |slots| reads Objects(slots) =>
      if slots[i] == null then None else Some(slots[i].data))
  }

  function Regions(views: seq<Option<array?<byte>>>): set<array<byte>> {
    set i | 0 <= i < |views| && views[i].Some? && views[i].value != null :: views[i].value
  }

  /** A view of a region reads as the file mapped there. */
  ghost predicate ReadsAs(view: Option<array?<byte>>, f: Option<seq<byte>>)
    reads if view.Some? then view.value else null
  {
    match view
    case None => f == None
    case Some(r) => f == Some(if r == null then [] else r[..])
  }

  ghost predicate Reads(views: seq<Option<array?<byte>>>, files: seq<Option<seq<byte>>>)
    reads Regions(views)
  {
    |views| == |files| && forall i :: 0 <= i < |views| ==> ReadsAs(views[i], files[i])
  }

  lemma ReadsUpdate(views: seq<Option<array?<byte>>>, files: seq<Option<seq<byte>>>, i: nat,
                    view: Option<array?<byte>>, f: Option<seq<byte>>)
    requires Reads(views, files) && i < |views| && ReadsAs(view, f)
    ensures Reads(views[i := view], files[i := f])
  {
  }

  lemma ReadsPlus(views: seq<Option<array?<byte>>>, files: seq<Option<seq<byte>>>,
                  view: Option<array?<byte>>, f: Option<seq<byte>>)
    requires Reads(views, files) && ReadsAs(view, f)
    ensures Reads(views + [view], files + [f])
  {
  }

  /** The unmaps so far had these lengths. */
  predicate Lengths(unmaps: seq<Unmap>, released: seq<nat>) {
    |unmaps| == |released| && forall k :: 0 <= k < |unmaps| ==> unmaps[k].size == released[k]
  }

  /** The objects stand for the world: each slot reads as its file, and the unmaps are the lengths let go of. */
  ghost predicate Represents(space: AddressSpace, slots: Slots, world: World)
    reads space, Objects(slots), Regions(Views(slots))
  {
    Ownership(space, slots) && Reads(Views(slots), world.files) && Lengths(space.unmaps, world.released)
  }

  /** No object is in two slots. */
  lemma SlotsDiffer(space: AddressSpace, slots: Slots)
    requires Ownership(space, slots)
    ensures forall i, j :: 0 <= i < |slots| && 0 <= j < |slots| && i != j && slots[i] != null ==> slots[j] != slots[i]
  {
    forall i, j | 0 <= i < |slots| && 0 <= j < |slots| && i != j && slots[i] != null
      ensures slots[j] != slots[i]
    {
      assert IsLive(slots, i) && (IsLive(slots, j) || slots[j] == null);
    }
  }

  /** From one state of the address space to another, region `r` has been unmapped, if it is one, and nothing else. */
  ghost predicate Unmapped(r: array?<byte>, live: set<array<byte>>, unmaps: seq<Unmap>,
                           live': set<array<byte>>, unmaps': seq<Unmap>)
  {
    if r == null then live' == live && unmaps' == unmaps
    else live' == live - {r} && unmaps' == unmaps + [Unmap(r, r.Length)]
  }

  /** A live slot lets go of as many bytes as the world says. */
  lemma LetGoLengths(space: AddressSpace, slots: Slots, world: World, i: nat)
    requires Represents(space, slots, world) && IsLive(slots, i)
    ensures world.Has(i)
    ensures forall live', unmaps' :: Unmapped(slots[i].data, space.live, space.unmaps, live', unmaps') ==>
              Lengths(unmaps', world.LetGo(i))
  {
    assert ReadsAs(Views(slots)[i], world.files[i]);
  }

  lemma OneMoreObject(slots: Slots, file: MemoryMappedFile)
    ensures Objects(slots + [file]) == Objects(slots) + {file}
    ensures Views(slots + [file]) == Views(slots) + [Some(file.data)]
  {
    var longer := slots + [file];
    assert longer[|slots|] == file;
    forall o | o in Objects(slots)
      ensures o in Objects(longer)
    {
      var i :| 0 <= i < |slots| && slots[i] == o;
      assert longer[i] == o;
    }
  }

  // Each operation twice: first that ownership is kept and what the slots then view, then
  // what that means for the files.

  method ConstructSlot(space: AddressSpace, slots: Slots, contents: seq<byte>) returns (file: MemoryMappedFile)
    requires Ownership(space, slots)
    modifies space
    ensures Ownership(space, slots + [file])
    ensures fresh(file) && file.Valid() && file.Bytes() == contents
    ensures file.data == null <==> contents == []
    ensures file.data == null ==> space.live == old(space.live) && space.mapped == old(space.mapped)
    ensures file.data != null ==> fresh(file.data) && space.live == old(space.live) + {file.data}
    ensures file.data != null ==> space.mapped == old(space.mapped) + {file.data}
    ensures space.unmaps == old(space.unmaps)
  {
    file := new MemoryMappedFile.Map(space, contents);
    var next := slots + [file];
    assert forall i :: IsLive(next, i) && i != |slots| ==> IsLive(slots, i) && next[i] == slots[i] && slots[i] != file;
    forall r | r in space.live
      ensures exists i :: Owns(next, i, r)
    {
      if r in old(space.live) {
        var i :| old(Owns(slots, i, r));
        assert Owns(next, i, r);
      } else {
        assert Owns(next, |slots|, r);
      }
    }
  }

  method DoConstruct(space: AddressSpace, slots: Slots, contents: seq<byte>, ghost world: World)
    returns (next: Slots)
    requires Represents(space, slots, world)
    modifies space
    ensures Represents(space, next, world.Do(Construct(contents)))
    ensures fresh(Objects(next) - Objects(slots))
    ensures |next| == |slots| + 1 && next[|slots|] != null
    ensures var file := next[|slots|];
            && file.Valid() && file.Bytes() == contents
            && Views(next) == old(Views(slots)) + [Some(file.data)]
            && (if contents == [] then
                  file.data == null && space.live == old(space.live) && space.mapped == old(space.mapped)
                else
                  && file.data != null && fresh(file.data)
                  && space.live == old(space.live) + {file.data} && space.mapped == old(space.mapped) + {file.data})
    ensures space.unmaps == old(space.unmaps)
  {
    ghost var views := Views(slots);
    var file := ConstructSlot(space, slots, contents);
    next := slots + [file];
    OneMoreObject(slots, file);
    assert file.data != null ==> file.data[..] == file.data[..file.size] == contents;
    ReadsPlus(views, world.files, Some(file.data), Some(contents));
  }

  method MoveConstructSlot(space: AddressSpace, slots: Slots, source: nat) returns (file: MemoryMappedFile)
    requires Ownership(space, slots) && IsLive(slots, source)
    modifies slots[source]
    ensures Ownership(space, slots + [file])
    ensures fresh(file) && file.data == old(slots[source].data)
    ensures Views(slots) == old(Views(slots))[source := Some(null)]
  {
    SlotsDiffer(space, slots);
    file := new MemoryMappedFile.Move(slots[source]);
    var next := slots + [file];
    assert forall i :: IsLive(next, i) && i != |slots| ==> IsLive(slots, i) && next[i] == slots[i] && slots[i] != file;
    forall r | r in space.live
      ensures exists i :: Owns(next, i, r)
    {
      var i :| old(Owns(slots, i, r));
      assert Owns(next, if i == source then |slots| else i, r);
    }
  }

  method DoMoveConstruct(space: AddressSpace, slots: Slots, source: nat, ghost world: World)
    returns (next: Slots)
    requires Represents(space, slots, world) && IsLive(slots, source)
    modifies slots[source]
    ensures Represents(space, next, world.Do(MoveConstruct(source)))
    ensures fresh(Objects(next) - Objects(slots))
    ensures Views(next) == old(Views(slots))[source := Some(null)] + [Some(old(slots[source].data))]
  {
    ghost var views := Views(slots);
    assert ReadsAs(views[source], world.files[source]);
    var file := MoveConstructSlot(space, slots, source);
    next := slots + [file];
    OneMoreObject(slots, file);
    ReadsUpdate(views, world.files, source, Some(null), Some([]));
    ReadsPlus(views[source := Some(null)], world.files[source := Some([])], views[source], world.files[source]);
  }

  method MoveAssignSlot(space: AddressSpace, slots: Slots, target: nat, source: nat)
    requires Ownership(space, slots) && IsLive(slots, target) && IsLive(slots, source) && target != source
    modifies space, slots[target], slots[source]
    ensures Ownership(space, slots)
    ensures slots[target].data == old(slots[source].data) && slots[source].data == null
    ensures space.mapped == old(space.mapped)
    ensures Unmapped(old(slots[target].data), old(space.live), old(space.unmaps), space.live, space.unmaps)
  {
    slots[target].MoveAssign(slots[source]);
    forall r | r in space.live
      ensures exists i :: Owns(slots, i, r)
    {
      var i :| old(Owns(slots, i, r));
      assert Owns(slots, if i == source then target else i, r);
    }
  }

  method MoveAssignView(space: AddressSpace, slots: Slots, target: nat, source: nat)
    requires Ownership(space, slots) && IsLive(slots, target) && IsLive(slots, source) && target != source
    modifies space, slots[target], slots[source]
    ensures Ownership(space, slots)
    ensures Views(slots) == old(Views(slots))[target := Some(old(slots[source].data))][source := Some(null)]
    ensures space.mapped == old(space.mapped)
    ensures Unmapped(old(slots[target].data), old(space.live), old(space.unmaps), space.live, space.unmaps)
  {
    ghost var views := Views(slots);
    SlotsDiffer(space, slots);
    MoveAssignSlot(space, slots, target, source);
    forall i | 0 <= i < |slots| && i != target && i != source
      ensures Views(slots)[i] == views[i]
    {
    }
  }

  method DoMoveAssign(space: AddressSpace, slots: Slots, target: nat, source: nat, ghost world: World)
    requires Represents(space, slots, world) && IsLive(slots, target) && IsLive(slots, source)
    requires target != source
    modifies space, slots[target], slots[source]
    ensures Represents(space, slots, world.Do(MoveAssignTo(target, source)))
    ensures Views(slots) == old(Views(slots))[target := Some(old(slots[source].data))][source := Some(null)]
    ensures space.mapped == old(space.mapped)
    ensures Unmapped(old(slots[target].data), old(space.live), old(space.unmaps), space.live, space.unmaps)
  {
    ghost var views := Views(slots);
    LetGoLengths(space, slots, world, target);
    assert ReadsAs(views[source], world.files[source]);
    MoveAssignView(space, slots, target, source);
    ReadsUpdate(views, world.files, target, views[source], world.files[source]);
    ReadsUpdate(views[target := views[source]], world.files[target := world.files[source]],
                source, Some(null), Some([]));
  }

  method SelfAssignSlot(space: AddressSpace, slots: Slots, slot: nat)
    requires Ownership(space, slots) && IsLive(slots, slot)
    modifies space, slots[slot]
    ensures Ownership(space, slots)
    ensures unchanged(space) && unchanged(slots[slot])
  {
    slots[slot].MoveAssign(slots[slot]);
    forall r | r in space.live
      ensures exists i :: Owns(slots, i, r)
    {
      var i :| old(Owns(slots, i, r));
      assert Owns(slots, i, r);
    }
  }

  method DoSelfAssign(space: AddressSpace, slots: Slots, slot: nat, ghost world: World)
    requires Represents(space, slots, world) && IsLive(slots, slot)
    modifies space, slots[slot]
    ensures Represents(space, slots, world.Do(MoveAssignTo(slot, slot)))
    ensures Views(slots) == old(Views(slots)) && unchanged(space)
  {
    ghost var views := Views(slots);
    SelfAssignSlot(space, slots, slot);
    assert Views(slots) == views;
    assert Reads(views, world.files);
  }

  method ReleaseSlot(space: AddressSpace, slots: Slots, slot: nat)
    requires Ownership(space, slots) && IsLive(slots, slot)
    modifies space, slots[slot]
    ensures Ownership(space, slots) && slots[slot].data == null
    ensures Views(slots) == old(Views(slots))[slot := Some(null)]
    ensures space.mapped == old(space.mapped)
    ensures Unmapped(old(slots[slot].data), old(space.live), old(space.unmaps), space.live, space.unmaps)
  {
    SlotsDiffer(space, slots);
    slots[slot].Release();
    forall r | r in space.live
      ensures exists i :: Owns(slots, i, r)
    {
      var i :| old(Owns(slots, i, r));
      assert Owns(slots, i, r);
    }
  }

  /** An object that holds nothing can go. */
  lemma WithoutEmptySlot(space: AddressSpace, slots: Slots, slot: nat)
    requires Ownership(space, slots) && IsLive(slots, slot) && slots[slot].data == null
    ensures Ownership(space, slots[slot := null])
    ensures Views(slots[slot := null]) == Views(slots)[slot := None]
  {
    var next := slots[slot := null];
    assert forall i :: IsLive(next, i) ==> IsLive(slots, i) && next[i] == slots[i];
    forall r | r in space.live
      ensures exists i :: Owns(next, i, r)
    {
      var i :| Owns(slots, i, r);
      assert Owns(next, i, r);
    }
  }

  method DoDestroy(space: AddressSpace, slots: Slots, slot: nat, ghost world: World) returns (next: Slots)
    requires Represents(space, slots, world) && IsLive(slots, slot)
    modifies space, slots[slot]
    ensures Represents(space, next, world.Do(Destroy(slot)))
    ensures Objects(next) <= Objects(slots)
    ensures next == slots[slot := null] && Views(next) == old(Views(slots))[slot := None]
    ensures space.mapped == old(space.mapped)
    ensures Unmapped(old(slots[slot].data), old(space.live), old(space.unmaps), space.live, space.unmaps)
  {
    ghost var views := Views(slots);
    LetGoLengths(space, slots, world, slot);
    ReleaseSlot(space, slots, slot);
    WithoutEmptySlot(space, slots, slot);
    next := slots[slot := null];
    ReadsUpdate(views, world.files, slot, None, None);
  }

  method Do(space: AddressSpace, slots: Slots, op: Op, ghost world: World) returns (next: Slots)
    requires Represents(space, slots, world)
    modifies space, Objects(slots)
    ensures Represents(space, next, world.Do(op))
    ensures fresh(Objects(next) - Objects(slots))
    ensures match op
            case Construct(contents) =>
              && |next| == |slots| + 1 && next[|slots|] != null
              && var file := next[|slots|];
              && file.Valid() && file.Bytes() == contents
              && Views(next) == old(Views(slots)) + [Some(file.data)]
              && space.unmaps == old(space.unmaps)
              && (if contents == [] then
                    file.data == null && space.live == old(space.live) && space.mapped == old(space.mapped)
                  else
                    && file.data != null && fresh(file.data)
                    && space.live == old(space.live) + {file.data} && space.mapped == old(space.mapped) + {file.data})
            case MoveConstruct(source) => IsLive(slots, source) ==>
              && Views(next) == old(Views(slots))[source := Some(null)] + [Some(old(slots[source].data))]
              && unchanged(space)
            case MoveAssignTo(target, source) => IsLive(slots, target) && IsLive(slots, source) ==>
              && next == slots && space.mapped == old(space.mapped)
              && (if target == source then Views(next) == old(Views(slots)) && unchanged(space)
                  else
                    && Views(next) == old(Views(slots))[target := Some(old(slots[source].data))][source := Some(null)]
                    && Unmapped(old(slots[target].data), old(space.live), old(space.unmaps), space.live, space.unmaps))
            case Destroy(slot) => IsLive(slots, slot) ==>
              && next == slots[slot := null] && Views(next) == old(Views(slots))[slot := None]
              && space.mapped == old(space.mapped)
              && Unmapped(old(slots[slot].data), old(space.live), old(space.unmaps), space.live, space.unmaps)
    ensures !Legal(slots, op) ==> next == slots && Views(next) == old(Views(slots)) && unchanged(space)
  {
    next := slots;
    if Legal(slots, op) {
      match op
      case Construct(contents) => next := DoConstruct(space, slots, contents, world);
      case MoveConstruct(source) => next := DoMoveConstruct(space, slots, source, world);
      case MoveAssignTo(target, source) =>
        if target == source {
          DoSelfAssign(space, slots, target, world);
        } else {
          DoMoveAssign(space, slots, target, source, world);
        }
      case Destroy(slot) => next := DoDestroy(space, slots, slot, world);
    }
  }

  /** A program leaves empty the slots whose objects it destroyed; there are no more slots than operations. */
  lemma EmptySlots(slots: Slots, ops: seq<Op>)
    requires Reads(Views(slots), DoAll(ops).files)
    ensures forall i :: 0 <= i < |slots| ==> (slots[i] == null <==> Destroys(ops, i))
    ensures |slots| <= |ops|
  {
    forall i | 0 <= i < |slots|
      ensures slots[i] == null <==> Destroys(ops, i)
    {
      LifeOfASlot(ops, i);
      assert ReadsAs(Views(slots)[i], DoAll(ops).files[i]);
    }
    SlotsAreMade(ops, 0);
  }

  /** Any program over owner objects. An operation that names no existing object is not part of it. */
  method Run(ops: seq<Op>) returns (space: AddressSpace, slots: Slots)
    ensures Represents(space, slots, DoAll(ops))
    ensures forall i :: 0 <= i < |slots| ==> (slots[i] == null <==> Destroys(ops, i))
    ensures |slots| <= |ops|
  {
    space := new AddressSpace();
    slots := [];
    for k := 0 to |ops|
      invariant fresh(space) && fresh(Objects(slots))
      invariant Represents(space, slots, DoAll(ops[..k]))
    {
      assert ops[..k + 1][..k] == ops[..k];
      slots := Do(space, slots, ops[k], DoAll(ops[..k]));
    }
    assert ops[..|ops|] == ops;
    EmptySlots(slots, ops);
  }

  /**
   What ownership means for every region there ever was: either it is mapped, one object
   owns it, and it was never unmapped; or no object owns it, and it was unmapped exactly
   once, with its own size.
   */
  lemma EachRegionHasOneFate(space: AddressSpace, slots: Slots, r: array<byte>)
    requires Ownership(space, slots)
    requires r in space.mapped
    ensures r in space.live ==>
              && (exists i :: Owns(slots, i, r) && forall j :: Owns(slots, j, r) ==> j == i)
              && (forall k :: 0 <= k < |space.unmaps| ==> space.unmaps[k].region != r)
    ensures r !in space.live ==>
              && (forall i :: !Owns(slots, i, r))
              && (exists k :: 0 <= k < |space.unmaps| && space.unmaps[k] == Unmap(r, r.Length)
                    && forall l :: 0 <= l < |space.unmaps| && l != k ==> space.unmaps[l].region != r)
  {
    if r in space.live {
      var i :| Owns(slots, i, r);
      forall j | Owns(slots, j, r)
        ensures j == i
      {
      }
      forall k | 0 <= k < |space.unmaps|
        ensures space.unmaps[k].region != r
      {
      }
    } else {
      var k :| 0 <= k < |space.unmaps| && space.unmaps[k].region == r;
      assert space.unmaps[k] == Unmap(r, r.Length);
    }
  }

  /** When every object has been destroyed, nothing is left mapped and every region was unmapped. */
  lemma NoLeak(space: AddressSpace, slots: Slots)
    requires Ownership(space, slots)
    requires forall i :: 0 <= i < |slots| ==> slots[i] == null
    ensures space.live == {}
    ensures forall r :: r in space.mapped ==> Released(space.unmaps, r)
  {
    forall r | r in space.live
      ensures exists i :: Owns(slots, i, r)
    {
    }
  }

  /** The lengths the munmap calls were made with. */
  ghost function Sizes(unmaps: seq<Unmap>): seq<nat> {
    seq(|unmaps|, k requires 0 <= k < |unmaps| => unmaps[k].size)
  }

  /**
   A program that destroys every object it made ends with nothing mapped: every region was
   unmapped, and the lengths unmapped add up to the lengths of all the files mapped.
   */
  lemma AllDestroyed(space: AddressSpace, slots: Slots, ops: seq<Op>)
    requires Represents(space, slots, DoAll(ops))
    requires forall i :: 0 <= i < |slots| ==> Destroys(ops, i)
    ensures space.live == {}
    ensures forall r :: r in space.mapped ==> Released(space.unmaps, r)
    ensures Sum(Sizes(space.unmaps)) == MappedBytes(ops)
  {
    var world := DoAll(ops);
    EmptySlots(slots, ops);
    forall i | 0 <= i < |slots|
      ensures world.files[i].None?
    {
      assert ReadsAs(Views(slots)[i], world.files[i]);
    }
    NoLeak(space, slots);
    NothingHeld(world.files);
    MappingsAreConserved(ops);
    assert Sizes(space.unmaps) == world.released;
  }

  /** A program, and then the end of every object it may have left. */
  function ToTheEnd(ops: seq<Op>): seq<Op> {
    ops + seq(|ops|, i requires 0 <= i < |ops| => Destroy(i))
  }

  lemma {:induction false} DestroyingMakesNothing(ops: seq<Op>, more: seq<Op>)
    requires forall k :: 0 <= k < |more| ==> more[k].Destroy?
    ensures |DoAll(ops + more).files| == |DoAll(ops).files|
    decreases |more|
  {
    if more == [] {
      EmptyPlus(ops);
    } else {
      var init := more[..|more| - 1];
      assert (ops + more)[..|ops + more| - 1] == ops + init;
      DestroyingMakesNothing(ops, init);
    }
  }

  lemma EndsAll(ops: seq<Op>, i: nat)
    requires i < |DoAll(ToTheEnd(ops)).files|
    ensures Destroys(ToTheEnd(ops), i)
  {
    var all := ToTheEnd(ops);
    DestroyingMakesNothing(ops, all[|ops|..]);
    SlotsAreMade(ops, 0);
    DestroyingMakesNothing(ops, all[|ops|..][..i]);
    assert all[..|ops| + i] == ops + all[|ops|..][..i];
    assert all == ops + all[|ops|..];
    assert all[|ops| + i] == Destroy(i);
  }

  /** Whatever a program does, when its objects have come to their end everything it mapped has been unmapped. */
  method RunToTheEnd(ops: seq<Op>) returns (space: AddressSpace)
    ensures space.live == {}
    ensures forall r :: r in space.mapped ==> Released(space.unmaps, r)
    ensures Sum(Sizes(space.unmaps)) == MappedBytes(ops)
  {
    var slots;
    space, slots := Run(ToTheEnd(ops));
    forall i | 0 <= i < |slots|
      ensures Destroys(ToTheEnd(ops), i)
    {
      EndsAll(ops, i);
    }
    AllDestroyed(space, slots, ToTheEnd(ops));
    DestroyingMapsNothing(ops, ToTheEnd(ops)[|ops|..]);
    assert ToTheEnd(ops) == ops + ToTheEnd(ops)[|ops|..];
  }

  lemma {:induction false} DestroyingMapsNothing(ops: seq<Op>, more: seq<Op>)
    requires forall k :: 0 <= k < |more| ==> more[k].Destroy?
    ensures MappedBytes(ops + more) == MappedBytes(ops)
    decreases |more|
  {
    if more == [] {
      EmptyPlus(ops);
    } else {
      var init := more[..|more| - 1];
      assert (ops + more)[..|ops + more| - 1] == ops + init;
      DestroyingMapsNothing(ops, init);
    }
  }
}
