/**
 From addresses to objects (object.c): how a word resolves in either heap, where
 an object ends, and its mark.
 */
module Objects {
  import opened Config
  import T = BlockTrees
  import opened TreapLaws
  import opened SearchLaws
  import opened SweepLaws
  import opened SmallMachine
  import opened SmallRuns
  import opened Bitmap

  /**
   What resolution depends on: the two heaps, the object size in each block
   header and the blocks of the occupied tree, marks aside.
   */
  datatype Layout = Layout(smallStart: nat, sizes: seq<nat>, largeStart: nat, largeEnd: nat, occupied: T.Tree)

  function SmallEnd(l: Layout): nat { l.smallStart + BLOCK_SIZE * |l.sizes| }

  predicate InLarge(l: Layout, a: nat) { l.largeStart <= a < l.largeEnd }

  predicate InSmall(l: Layout, a: nat) { l.smallStart <= a < SmallEnd(l) }

  ghost predicate LayoutOk(l: Layout) {
    && Spaced(l.occupied, l.largeStart, l.largeEnd, 0) && AllAligned(l.occupied)
    && (l.largeEnd <= l.smallStart || SmallEnd(l) <= l.largeStart)
    && l.smallStart % 8 == 0
  }

  /** The marks of a tree forgotten. */
  function Erase(t: T.Tree): T.Tree {
    match t
    case Empty => T.Empty
    case Fork(n, b, l, r) => T.Fork(n, b.(isMarked := false), Erase(l), Erase(r))
  }

  // ----- get_object -----

  /** `get_object`: the object that holds address `a`, if there is one. */
  function GetObject(l: Layout, a: nat): T.Option<nat> {
    if InLarge(l, a) then
      var found := T.ExtSearchBst(l.occupied, a);
      if found.Some? then T.Some(found.value.block.addr) else T.None
    else if InSmall(l, a) then GetSmallObject(l, a)
    else T.None
  }

  function GetSmallObject(l: Layout, a: nat): T.Option<nat>
    requires InSmall(l, a)
  {
    BlockInHeap(l, a);
    var b := BlockOf(l.smallStart, a);
    var size := Align(l.sizes[b]);
    var inBlock := a - (l.smallStart + BLOCK_SIZE * b);
    if inBlock < BLOCK_HEADER_SIZE then T.None
    else if size == 0 || size > MAX_OBJECT_SIZE then T.None
    else T.Some(a - Offset(inBlock - BLOCK_HEADER_SIZE, size))
  }

  /** How far byte `x` lies beyond the last multiple of `d`. */
  function Offset(x: nat, d: nat): (r: nat)
    requires d > 0
    ensures r <= x && r == x % d
  {
    x % d
  }

  lemma BlockInHeap(l: Layout, a: nat)
    requires InSmall(l, a)
    ensures BlockOf(l.smallStart, a) < |l.sizes|
    ensures var base := l.smallStart + BLOCK_SIZE * BlockOf(l.smallStart, a); base <= a < base + BLOCK_SIZE
  {
  }

  /** An object is an address that resolves to itself. */
  predicate IsObject(l: Layout, o: nat) { GetObject(l, o) == T.Some(o) }

  /** `get_object_size`: rounded up already; 0 stands for the failed assertion on an address that starts no block. */
  function ObjectSize(l: Layout, o: nat): nat {
    if InSmall(l, o) then
      BlockInHeap(l, o);
      Align(l.sizes[BlockOf(l.smallStart, o)])
    else
      var found := T.SearchBst(l.occupied, o);
      if found.Some? then found.value.block.size else 0
  }

  /** The bit a small object has. */
  function SlotOf(l: Layout, o: nat): Slot
    requires IsObject(l, o) && !InLarge(l, o)
  {
    SmallParts(l, o);
    var b := BlockOf(l.smallStart, o);
    Slot(b, IndexOf(l.smallStart, o, b, l.sizes[b]))
  }

  lemma SmallParts(l: Layout, a: nat)
    requires GetObject(l, a).Some? && !InLarge(l, a)
    ensures InSmall(l, a) && BlockOf(l.smallStart, a) < |l.sizes|
    ensures var b := BlockOf(l.smallStart, a);
      && SizeOk(l.sizes[b]) && ObjectsAddr(l.smallStart, b) <= a < l.smallStart + BLOCK_SIZE * (b + 1)
  {
    BlockInHeap(l, a);
  }

  /** The object is a whole slot, not the left-over bytes at the end of a block. */
  predicate Whole(l: Layout, o: nat)
    requires IsObject(l, o)
  {
    InLarge(l, o) ||
    (SmallParts(l, o);
     SlotOf(l, o).index < Slots(l.sizes[SlotOf(l, o).block]))
  }

  // ----- Round trips -----

  lemma SmallObjectIsSlot(l: Layout, a: nat, o: nat)
    requires GetObject(l, a) == T.Some(o) && !InLarge(l, a)
    ensures var b := BlockOf(l.smallStart, a);
      b < |l.sizes| && SizeOk(l.sizes[b]) && ObjectsAddr(l.smallStart, b) <= a
      && o == SlotAddr(l.smallStart, b, l.sizes[b], IndexOf(l.smallStart, a, b, l.sizes[b]))
  {
    SmallParts(l, a);
    var b := BlockOf(l.smallStart, a);
    var (d, x) := (Align(l.sizes[b]), a - ObjectsAddr(l.smallStart, b));
    assert x == d * (x / d) + x % d;
  }

  /** Any address of an object resolves to the object's start, which resolves to itself. */
  lemma ResolvesToStart(l: Layout, a: nat, o: nat)
    requires LayoutOk(l) && GetObject(l, a) == T.Some(o)
    ensures IsObject(l, o) && o <= a && InLarge(l, o) == InLarge(l, a)
    ensures a < o + ObjectSize(l, o)
  {
    if InLarge(l, a) {
      LargeStart(l, a, o);
    } else {
      SmallStart(l, a, o);
    }
  }

  lemma LargeStart(l: Layout, a: nat, o: nat)
    requires LayoutOk(l) && InLarge(l, a) && GetObject(l, a) == T.Some(o)
    ensures IsObject(l, o) && InLarge(l, o) && o <= a < o + ObjectSize(l, o)
    ensures T.SearchBst(l.occupied, o) == T.ExtSearchBst(l.occupied, a) == T.ExtSearchBst(l.occupied, o)
  {
    var t, lo, hi := l.occupied, l.largeStart, l.largeEnd;
    var b := T.ExtSearchBst(t, a).value.block;
    ExtSearchFindsHolder(t, lo, hi, a, b);
    BlockBounds(t, lo, hi, 0, b);
    ExtSearchFindsHolder(t, lo, hi, o, b);
    SearchFindsStart(t, lo, hi, o, b);
    SameNode(t, lo, hi, a, o);
  }

  lemma {:induction false} SameNode(t: T.Tree, lo: int, hi: int, a: nat, o: nat)
    requires Spaced(t, lo, hi, 0) && T.ExtSearchBst(t, a).Some? && T.ExtSearchBst(t, a).value.block.addr == o
    ensures T.ExtSearchBst(t, o) == T.ExtSearchBst(t, a) == T.SearchBst(t, o)
  {
    if !t.block.Within(a) {
      var side := if a < t.block.addr then t.left else t.right;
      var (lo', hi') := if a < t.block.addr then (lo, t.block.addr as int) else (t.block.End() as int, hi);
      SameNode(side, lo', hi', a, o);
      var b := T.ExtSearchBst(side, a).value.block;
      ExtSearchFindsHolder(side, lo', hi', a, b);
      BlockBounds(side, lo', hi', 0, b);
    }
  }

  lemma SmallStart(l: Layout, a: nat, o: nat)
    requires LayoutOk(l) && !InLarge(l, a) && GetObject(l, a) == T.Some(o)
    ensures IsObject(l, o) && !InLarge(l, o) && InSmall(l, o) && o <= a < o + ObjectSize(l, o)
  {
    SmallParts(l, a);
    var b := BlockOf(l.smallStart, a);
    var d := Align(l.sizes[b]);
    RoundDown(d, a - ObjectsAddr(l.smallStart, b));
    BlockOfByte(l.smallStart, b, o);
  }

  lemma RoundDown(d: nat, x: nat)
    requires d > 0
    ensures 0 <= x - x % d <= x < x - x % d + d && (x - x % d) % d == 0 && (x - x % d) / d == x / d
  {
    var q := x / d;
    assert x == d * q + x % d;
    MulLe(d, 0, q);
    DivUnique(d, q, 0);
  }

  lemma BlockOfByte(start: nat, b: nat, a: nat)
    requires start + BLOCK_SIZE * b <= a < start + BLOCK_SIZE * (b + 1)
    ensures BlockOf(start, a) == b
  {
  }

  /** Every address inside a large block resolves to the block's start, and to nothing else. */
  lemma LargeInterior(l: Layout, b: T.Block, a: nat)
    requires LayoutOk(l) && b in T.Blocks(l.occupied) && b.Within(a)
    ensures GetObject(l, a) == T.Some(b.addr)
  {
    BlockBounds(l.occupied, l.largeStart, l.largeEnd, 0, b);
    ExtSearchFindsHolder(l.occupied, l.largeStart, l.largeEnd, a, b);
  }

  /** Every address inside a slot of a block in use, whole or partial, resolves to the slot's start. */
  lemma SmallInterior(l: Layout, b: nat, i: nat, a: nat)
    requires LayoutOk(l) && b < |l.sizes| && SizeOk(l.sizes[b]) && InSlot(l.smallStart, b, l.sizes[b], i, a)
    ensures GetObject(l, a) == T.Some(SlotAddr(l.smallStart, b, l.sizes[b], i))
  {
    var size := l.sizes[b];
    AddressOfSlot(l.smallStart, b, size, i, a);
    MulLe(BLOCK_SIZE, b + 1, |l.sizes|);
    assert InSmall(l, a) && !InLarge(l, a);
    assert Align(size) <= MAX_OBJECT_SIZE;
  }

  /** And the other way round: what resolves to the start of a slot lies in the slot. */
  lemma InsideItsSlot(l: Layout, a: nat, o: nat)
    requires LayoutOk(l) && GetObject(l, a) == T.Some(o) && !InLarge(l, a)
    ensures IsObject(l, o) && !InLarge(l, o)
    ensures var x := SlotOf(l, o); x.block < |l.sizes| && InSlot(l.smallStart, x.block, l.sizes[x.block], x.index, a)
  {
    SmallStart(l, a, o);
    SmallParts(l, a);
    SmallParts(l, o);
    SmallObjectIsSlot(l, o, o);
    SameBlock(l, a, o);
  }

  lemma SameBlock(l: Layout, a: nat, o: nat)
    requires LayoutOk(l) && GetObject(l, a) == T.Some(o) && !InLarge(l, a)
    ensures BlockOf(l.smallStart, o) == BlockOf(l.smallStart, a)
  {
    SmallParts(l, a);
    var b := BlockOf(l.smallStart, a);
    RoundDown(Align(l.sizes[b]), a - ObjectsAddr(l.smallStart, b));
    BlockOfByte(l.smallStart, b, o);
  }

  // ----- Marks -----

  /** `is_marked`. */
  predicate IsMarkedObject(l: Layout, occupied: T.Tree, marks: set<Slot>, o: nat)
    requires IsObject(l, o)
  {
    if InLarge(l, o) then IsMarkedAt(occupied, o) else SlotOf(l, o) in marks
  }

  ghost function AllObjects(l: Layout): set<nat> {
    set o: nat | o < (if l.largeEnd >= SmallEnd(l) then l.largeEnd else SmallEnd(l)) && IsObject(l, o)
  }

  lemma ObjectsAreAll(l: Layout, o: nat)
    ensures IsObject(l, o) <==> o in AllObjects(l)
  {
  }

  /** The marked objects, from the flags of the occupied tree and the bits of the bitmaps. */
  ghost function MarkedSet(l: Layout, occupied: T.Tree, marks: set<Slot>): set<nat> {
    set o | o in AllObjects(l) && IsMarkedObject(l, occupied, marks, o)
  }

  /** Setting the bit of a small object marks that object and no other. */
  lemma MarkSmall(l: Layout, occupied: T.Tree, marks: set<Slot>, o: nat)
    requires LayoutOk(l) && IsObject(l, o) && !InLarge(l, o)
    ensures MarkedSet(l, occupied, marks + {SlotOf(l, o)}) == MarkedSet(l, occupied, marks) + {o}
  {
    ObjectsAreAll(l, o);
    forall p | p in AllObjects(l) && !InLarge(l, p) && SlotOf(l, p) == SlotOf(l, o) ensures p == o {
      SmallObjectIsSlot(l, p, p);
      SmallObjectIsSlot(l, o, o);
    }
  }

  /** Setting the flag of a large object marks that object and no other. */
  lemma MarkLarge(l: Layout, occupied: T.Tree, marks: set<Slot>, o: nat)
    requires LayoutOk(l) && IsObject(l, o) && InLarge(l, o) && Erase(occupied) == l.occupied
    ensures MarkedSet(l, SetMark(occupied, o), marks) == MarkedSet(l, occupied, marks) + {o}
    ensures Erase(SetMark(occupied, o)) == l.occupied
  {
    ObjectsAreAll(l, o);
    LargeStart(l, o, o);
    EraseSearch(occupied, o);
    EraseMark(occupied, o);
    forall p | p in AllObjects(l) ensures IsMarkedAt(SetMark(occupied, o), p) <==> IsMarkedAt(occupied, p) || p == o {
      SetMarkMarks(occupied, o, p);
    }
  }

  lemma {:induction false} EraseMark(t: T.Tree, a: nat)
    ensures Erase(SetMark(t, a)) == Erase(t)
  {
    if t.Fork? {
      if a < t.block.addr { EraseMark(t.left, a); } else if a > t.block.addr { EraseMark(t.right, a); }
    }
  }

  lemma {:induction false} EraseSearch(t: T.Tree, a: nat)
    ensures T.SearchBst(Erase(t), a).Some? == T.SearchBst(t, a).Some?
    ensures T.SearchBst(t, a).Some? ==> T.SearchBst(Erase(t), a).value.block == T.SearchBst(t, a).value.block.(isMarked := false)
    ensures T.ExtSearchBst(Erase(t), a).Some? == T.ExtSearchBst(t, a).Some?
    ensures T.ExtSearchBst(t, a).Some? ==>
      T.ExtSearchBst(Erase(t), a).value.block == T.ExtSearchBst(t, a).value.block.(isMarked := false)
  {
    if t.Fork? {
      EraseSearch(t.left, a);
      EraseSearch(t.right, a);
    }
  }

  lemma {:induction false} ErasedBlock(t: T.Tree, b: T.Block)
    requires b in T.Blocks(t)
    ensures b.(isMarked := false) in T.Blocks(Erase(t))
  {
    if b in T.Blocks(t.left) { ErasedBlock(t.left, b); } else if b in T.Blocks(t.right) { ErasedBlock(t.right, b); }
  }

  lemma {:induction false} EraseSpaced(t: T.Tree, lo: int, hi: int, gap: nat)
    ensures Spaced(Erase(t), lo, hi, gap) <==> Spaced(t, lo, hi, gap)
    ensures AllAligned(Erase(t)) <==> AllAligned(t)
  {
    if t.Fork? {
      EraseSpaced(t.left, lo, t.block.addr - gap, gap);
      EraseSpaced(t.right, t.block.End() + gap, hi, gap);
    }
  }

  // ----- Slots and objects -----

  function ObjectOf(l: Layout, x: Slot): nat
    requires x.block < |l.sizes|
  {
    SlotAddr(l.smallStart, x.block, l.sizes[x.block], x.index)
  }

  /** The slot is that of an object of the small heap. */
  ghost predicate SlotIsObject(l: Layout, x: Slot) {
    && x.block < |l.sizes| && SizeOk(l.sizes[x.block])
    && IsObject(l, ObjectOf(l, x)) && !InLarge(l, ObjectOf(l, x)) && SlotOf(l, ObjectOf(l, x)) == x
  }

  lemma ObjectHasSlot(l: Layout, o: nat)
    requires IsObject(l, o) && !InLarge(l, o)
    ensures SlotIsObject(l, SlotOf(l, o)) && ObjectOf(l, SlotOf(l, o)) == o
  {
    SmallParts(l, o);
    SmallObjectIsSlot(l, o, o);
  }

  /** The slots that are objects are those that begin in a block with a size, the partial one included. */
  lemma SlotIsObjectIff(l: Layout, x: Slot)
    requires LayoutOk(l) && x.block < |l.sizes| && SizeOk(l.sizes[x.block])
    ensures SlotIsObject(l, x) <==> x.index < Starts(l.sizes[x.block])
  {
    var (o, size) := (ObjectOf(l, x), l.sizes[x.block]);
    StartsInBlock(l.smallStart, x.block, size, x.index);
    if x.index < Starts(size) {
      assert InSlot(l.smallStart, x.block, size, x.index, o);
      SmallInterior(l, x.block, x.index, o);
      AddressOfSlot(l.smallStart, x.block, size, x.index, o);
      MulLe(BLOCK_SIZE, x.block + 1, |l.sizes|);
    }
    if SlotIsObject(l, x) { SmallParts(l, o); }
  }

  /** A scan of a small object stays in its block exactly when the object is a whole slot. */
  lemma WholeIff(l: Layout, o: nat)
    requires LayoutOk(l) && IsObject(l, o) && !InLarge(l, o)
    ensures InSmall(l, o) && (o + ObjectSize(l, o) <= l.smallStart + BLOCK_SIZE * (BlockOf(l.smallStart, o) + 1) <==> Whole(l, o))
  {
    SmallParts(l, o);
    SmallObjectIsSlot(l, o, o);
    var x := SlotOf(l, o);
    FitsIff(l.smallStart, x.block, l.sizes[x.block], x.index);
  }

  // ----- The extent of an object -----

  /** The large part: the addresses that resolve to an object are the bytes of its block. */
  lemma LargeExtent(l: Layout, o: nat, a: nat)
    requires LayoutOk(l) && IsObject(l, o) && InLarge(l, o)
    ensures o <= a < o + ObjectSize(l, o) <==> GetObject(l, a) == T.Some(o)
  {
    LargeStart(l, o, o);
    var b := T.SearchBst(l.occupied, o).value.block;
    ExtSearchFindsHolder(l.occupied, l.largeStart, l.largeEnd, o, b);
    if b.Within(a) { LargeInterior(l, b, a); }
    if GetObject(l, a) == T.Some(o) { ResolvesToStart(l, a, o); }
  }

  /** The small part, with the partial slot clipped at the end of its block. */
  lemma SmallExtent(l: Layout, o: nat, a: nat)
    requires LayoutOk(l) && IsObject(l, o) && !InLarge(l, o)
    ensures InSmall(l, o)
    ensures (o <= a < o + ObjectSize(l, o) && a < l.smallStart + BLOCK_SIZE * (BlockOf(l.smallStart, o) + 1)) <==>
      GetObject(l, a) == T.Some(o)
  {
    SmallParts(l, o);
    ObjectHasSlot(l, o);
    var x := SlotOf(l, o);
    if InSlot(l.smallStart, x.block, l.sizes[x.block], x.index, a) { SmallInterior(l, x.block, x.index, a); }
    if GetObject(l, a) == T.Some(o) {
      ResolvesToStart(l, a, o);
      InsideItsSlot(l, a, o);
    }
  }

  /** The bytes that the size of a whole object covers are exactly the addresses that resolve to it. */
  lemma ObjectExtent(l: Layout, o: nat, a: nat)
    requires LayoutOk(l) && IsObject(l, o) && Whole(l, o)
    ensures o <= a < o + ObjectSize(l, o) <==> GetObject(l, a) == T.Some(o)
  {
    if InLarge(l, o) {
      LargeExtent(l, o, a);
    } else {
      SmallExtent(l, o, a);
      WholeIff(l, o);
    }
  }

  // ----- Survivors of the occupied tree -----

  lemma {:induction false} EraseKeeps(t: T.Tree, x: nat)
    ensures T.Covers(Erase(t), x) == T.Covers(t, x)
    ensures T.Nodes(Erase(t)) == T.Nodes(t) && T.Separate(Erase(t)) == T.Separate(t)
  {
    if t.Fork? {
      EraseKeeps(t.left, x);
      EraseKeeps(t.right, x);
    }
  }

  /** The sweep keeps a block exactly when its start address is marked. */
  lemma {:induction false} SurvivorsAreMarked(t: T.Tree, lo: int, hi: int, b: T.Block)
    requires Spaced(t, lo, hi, 0)
    ensures b in Survivors(t) <==> b in T.Blocks(Erase(t)) && IsMarkedAt(t, b.addr)
  {
    if t.Fork? {
      var (l, r, c) := (t.left, t.right, t.block);
      SurvivorsAreMarked(l, lo, c.addr, b);
      SurvivorsAreMarked(r, c.End(), hi, b);
      EraseSpaced(l, lo, c.addr, 0);
      EraseSpaced(r, c.End(), hi, 0);
      if b in T.Blocks(Erase(l)) { BlockBounds(Erase(l), lo, c.addr, 0, b); }
      if b in T.Blocks(Erase(r)) { BlockBounds(Erase(r), c.End(), hi, 0, b); }
    }
  }
}
