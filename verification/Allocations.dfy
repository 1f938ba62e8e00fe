/**
 What an allocation from either heap means for addresses (allocate_new_object in
 allocator.c): the result resolves to itself throughout, and every object in use
 stays where it is and keeps its bytes to itself.
 */
module Allocations {
  import opened Config
  import T = BlockTrees
  import opened TreapLaws
  import opened SearchLaws
  import opened LargeRuns
  import LargeShape
  import LargeHeap
  import opened SmallMachine
  import opened SmallRuns
  import opened SmallHeap
  import opened Objects

  /** The headers of the small heap are those of the layout. */
  ghost predicate SameSizes(l: Layout, s: Small) {
    |s.blocks| == |l.sizes| && forall b :: 0 <= b < |l.sizes| ==> l.sizes[b] == s.blocks[b].size
  }

  // ----- What an allocation hands out -----

  /** Every address of the extent resolves to its start. */
  ghost predicate ResolvesWithin(l: Layout, res: nat, size: nat) {
    forall a :: res <= a < res + size ==> GetObject(l, a) == T.Some(res)
  }

  lemma SmallResult(l: Layout, x: Slot)
    requires LayoutOk(l) && x.block < |l.sizes| && SizeOk(l.sizes[x.block]) && x.index < Slots(l.sizes[x.block])
    ensures ResolvesWithin(l, ObjectOf(l, x), Align(l.sizes[x.block]))
  {
    var (o, size) := (ObjectOf(l, x), l.sizes[x.block]);
    SlotInBlock(l.smallStart, x.block, size, x.index);
    forall a | o <= a < o + Align(size) ensures GetObject(l, a) == T.Some(o) { SmallInterior(l, x.block, x.index, a); }
  }

  lemma LargeResult(l: Layout, occupied: T.Tree, b: T.Block)
    requires LayoutOk(l) && l.occupied == Erase(occupied) && b in T.Blocks(occupied)
    ensures ResolvesWithin(l, b.addr, b.size)
  {
    ErasedBlock(occupied, b);
    forall a | b.addr <= a < b.End() ensures GetObject(l, a) == T.Some(b.addr) {
      LargeInterior(l, b.(isMarked := false), a);
    }
  }

  /**
   The call took the large heap from `s` to `s'` as `Allocate` does.  It is refused
   exactly when the free blocks and the pool say so, and all bytes of a result were free.
   */
  ghost predicate LargeServed(s: Large, s': Large, size: nat, res: nat) {
    && size > 0 && s' == Allocate(s, size).state && res == LargeHeap.Result(Allocate(s, size).result)
    && (res == 0 <==> Refused(s.free, s.pool, Align(size)))
    && (res != 0 ==> forall x: nat :: res <= x < res + Align(size) ==> T.Covers(s.free, x))
  }

  lemma LargeIsServed(s: Large, lo: nat, hi: nat, all: set<T.TreeNode>, size: nat)
    requires LargeRuns.Inv(s, lo, hi, all) && lo > 0 && size > 0
    ensures LargeServed(s, Allocate(s, size).state, size, LargeHeap.Result(Allocate(s, size).result))
  {
    AllocateComplete(s, lo, hi, all, size);
    LargeHeap.AllocatedInside(s, lo, hi, all, size);
    var a := Allocate(s, size);
    if a.result.Some? {
      AllocateGivesFreeBytes(s, lo, hi, all, size);
      var b := T.Block(a.result.value, Align(size), false);
      forall x: nat | b.addr <= x < b.addr + b.size ensures T.Covers(s.free, x) { assert b.Within(x); }
    }
  }

  // ----- What it leaves alone -----

  /** A large object, or a small one whose slot is in use. */
  ghost predicate InUse(l: Layout, used: set<Slot>, o: nat) { IsObject(l, o) && (InLarge(l, o) || SlotOf(l, o) in used) }

  /** Every address of an object in use still resolves to it in `l'`, and lies outside `res..res + n`. */
  ghost predicate KeepsInUse(l: Layout, used: set<Slot>, l': Layout, res: nat, n: nat) {
    forall o: nat, a: nat :: InUse(l, used, o) && GetObject(l, a) == T.Some(o) ==> StaysApart(l', o, a, res, n)
  }

  predicate StaysApart(l': Layout, o: nat, a: nat, res: nat, n: nat) {
    GetObject(l', a) == T.Some(o) && (res != 0 ==> !(res <= a < res + n))
  }

  /** An allocation in the small heap keeps every object in use, in either heap, and hands out none of its bytes. */
  lemma SmallKeepsInUse(l: Layout, sizes: seq<nat>, s: Small, s': Small, size: nat, res: nat, slot: Slot)
    requires LayoutOk(l) && SameSizes(l, s) && LayoutOk(l.(sizes := sizes)) && SameSizes(l.(sizes := sizes), s')
    requires Served(l.smallStart, s, s', size, res, slot) && |s'.blocks| == |s.blocks|
    ensures KeepsInUse(l, s.used, l.(sizes := sizes), res, Align(size))
  {
    forall o: nat, a: nat | InUse(l, s.used, o) && GetObject(l, a) == T.Some(o)
      ensures StaysApart(l.(sizes := sizes), o, a, res, Align(size))
    {
      ResolvesToStart(l, a, o);
      if InLarge(l, a) {
        if res != 0 { SlotInSmall(l.(sizes := sizes), slot); }
      } else {
        InsideItsSlot(l, a, o);
        ObjectHasSlot(l, o);
        var x := SlotOf(l, o);
        assert sizes[x.block] == l.sizes[x.block];
        SmallInterior(l.(sizes := sizes), x.block, x.index, a);
      }
    }
  }

  /** A whole slot lies in the small heap. */
  lemma SlotInSmall(l: Layout, x: Slot)
    requires x.block < |l.sizes| && SizeOk(l.sizes[x.block]) && x.index < Slots(l.sizes[x.block])
    ensures l.smallStart <= ObjectOf(l, x) && ObjectOf(l, x) + Align(l.sizes[x.block]) <= SmallEnd(l)
  {
    SlotInBlock(l.smallStart, x.block, l.sizes[x.block], x.index);
    MulLe(BLOCK_SIZE, x.block + 1, |l.sizes|);
  }

  /** Likewise in the large heap. */
  lemma LargeKeepsInUse(l: Layout, used: set<Slot>, s: Large, s': Large, all: set<T.TreeNode>, size: nat, res: nat)
    requires LayoutOk(l) && l.occupied == Erase(s.occupied) && LayoutOk(l.(occupied := Erase(s'.occupied)))
    requires LargeRuns.Inv(s, l.largeStart, l.largeEnd, all) && LargeServed(s, s', size, res)
    ensures KeepsInUse(l, used, l.(occupied := Erase(s'.occupied)), res, Align(size))
  {
    var l' := l.(occupied := Erase(s'.occupied));
    forall o: nat, a: nat | InUse(l, used, o) && GetObject(l, a) == T.Some(o) ensures StaysApart(l', o, a, res, Align(size)) {
      if InLarge(l, a) { LargeKeeps(l, s, s', all, size, res, o, a); }
      if res != 0 && res <= a < res + Align(size) { ResultInLarge(s, s', l.largeStart, l.largeEnd, all, size, res, a); }
    }
  }

  lemma LargeKeeps(l: Layout, s: Large, s': Large, all: set<T.TreeNode>, size: nat, res: nat, o: nat, a: nat)
    requires LayoutOk(l) && l.occupied == Erase(s.occupied) && LayoutOk(l.(occupied := Erase(s'.occupied)))
    requires LargeRuns.Inv(s, l.largeStart, l.largeEnd, all) && LargeServed(s, s', size, res)
    requires InLarge(l, a) && GetObject(l, a) == T.Some(o)
    ensures GetObject(l.(occupied := Erase(s'.occupied)), a) == T.Some(o) && T.Covers(s.occupied, a)
  {
    var c := HolderOf(l, s.occupied, a);
    AllocateKeepsBlocks(s, s', l.largeStart, l.largeEnd, all, size, res, c);
    ErasedBlock(s'.occupied, c);
    LargeInterior(l.(occupied := Erase(s'.occupied)), c.(isMarked := false), a);
  }

  /** The block of an address that resolves, as the tree with its marks has it. */
  lemma HolderOf(l: Layout, occupied: T.Tree, a: nat) returns (c: T.Block)
    requires LayoutOk(l) && l.occupied == Erase(occupied) && InLarge(l, a) && GetObject(l, a).Some?
    ensures c in T.Blocks(occupied) && c.Within(a) && T.Covers(occupied, a) && GetObject(l, a) == T.Some(c.addr)
  {
    var b := T.ExtSearchBst(l.occupied, a).value.block;
    ExtSearchFindsHolder(l.occupied, l.largeStart, l.largeEnd, a, b);
    CoversBlock(l.occupied, b, a);
    EraseKeeps(occupied, a);
    c := LargeShape.Holder(occupied, a);
    ErasedBlock(occupied, c);
    LargeInterior(l, c.(isMarked := false), a);
  }

  lemma AllocateKeepsBlocks(s: Large, s': Large, lo: nat, hi: nat, all: set<T.TreeNode>, size: nat, res: nat, c: T.Block)
    requires LargeRuns.Inv(s, lo, hi, all) && LargeServed(s, s', size, res) && c in T.Blocks(s.occupied)
    ensures c in T.Blocks(s'.occupied)
  {
    AllocateComplete(s, lo, hi, all, size);
    if Allocate(s, size).result.Some? { AllocateGivesFreeBytes(s, lo, hi, all, size); }
  }

  lemma ResultInLarge(s: Large, s': Large, lo: nat, hi: nat, all: set<T.TreeNode>, size: nat, res: nat, a: nat)
    requires LargeRuns.Inv(s, lo, hi, all) && LargeServed(s, s', size, res) && res != 0 && res <= a < res + Align(size)
    ensures lo <= a < hi && T.Covers(s.free, a)
  {
    SpacedCovers(s.free, lo, hi, 1, a);
  }

  // ----- One request -----

  /** The states of both heaps, with the layout they give. */
  datatype Snapshot = Snapshot(l: Layout, small: Small, large: Large)

  ghost predicate SnapshotOk(h: Snapshot, all: set<T.TreeNode>) {
    && LayoutOk(h.l) && SameSizes(h.l, h.small) && h.l.occupied == Erase(h.large.occupied)
    && LargeRuns.Inv(h.large, h.l.largeStart, h.l.largeEnd, all)
  }

  function HeapSize(l: Layout): int { l.largeEnd - l.largeStart }

  /**
   How `allocate_new_object` answers: one allocator serves the request, the other heap
   is left alone.  Every address in the aligned extent of a result resolves to the
   result, and every object in use keeps its addresses, all outside that extent.
   */
  ghost predicate Answered(h: Snapshot, h': Snapshot, size: nat, res: nat, slot: Slot) {
    && KeepsInUse(h.l, h.small.used, h'.l, res, Align(size))
    && (res != 0 ==> ResolvesWithin(h'.l, res, Align(size)))
    && if 1 <= size <= MAX_OBJECT_SIZE then Served(h.l.smallStart, h.small, h'.small, size, res, slot) && h'.large == h.large
       else if MAX_OBJECT_SIZE < size <= HeapSize(h.l) then LargeServed(h.large, h'.large, size, res) && h'.small == h.small
       else res == 0 && h' == h
  }

  /** A refused request leaves every object and every address as it was. */
  lemma NullKeepsLayout(h: Snapshot, h': Snapshot, size: nat, slot: Slot, all: set<T.TreeNode>)
    requires SnapshotOk(h, all) && SnapshotOk(h', all) && Answered(h, h', size, 0, slot)
    requires h'.l == h.l.(sizes := h'.l.sizes, occupied := h'.l.occupied)
    ensures h'.l == h.l
  {
    if 1 <= size <= MAX_OBJECT_SIZE {
      RanToNullKeepsSizes(h.small, ME, h'.small);
    } else if MAX_OBJECT_SIZE < size <= HeapSize(h.l) {
      AllocateComplete(h.large, h.l.largeStart, h.l.largeEnd, all, size);
    }
    assert h'.l.sizes == h.l.sizes;
  }
}
