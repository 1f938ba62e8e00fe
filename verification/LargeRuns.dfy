/**
 The large-object heap over whole runs: allocation, marking and sweeping as
 steps on the pair of trees and the node pool, and the invariant every run keeps.
 */
module LargeRuns {
  import opened Sequences
  import opened Config
  import opened BlockTrees
  import opened TreapLaws
  import opened SearchLaws
  import opened SweepLaws

  /** The globals of the large allocator. */
  datatype Large = Large(free: Tree, occupied: Tree, pool: seq<TreeNode>)

  // ----- The invariant -----

  /** Every byte of [lo, hi) lies in exactly one of the two trees. */
  ghost predicate Tiles(free: Tree, occupied: Tree, lo: nat, hi: nat) {
    forall x: nat :: lo <= x < hi ==> (Covers(free, x) <==> !Covers(occupied, x))
  }

  /**
   The free treap is ordered, coalesced and heap-ordered; the occupied tree is
   ordered; all sizes are positive multiples of 8; the two trees tile [lo, hi);
   and each of the nodes `all` is in one tree or in the pool.
   */
  ghost predicate Inv(s: Large, lo: nat, hi: nat, all: set<TreeNode>) {
    && FreeTreap(s.free, lo, hi)
    && Spaced(s.occupied, lo, hi, 0) && AllAligned(s.occupied)
    && Tiles(s.free, s.occupied, lo, hi)
    && Owned(s.occupied, s.free, s.pool, all)
  }

  lemma TilesDisjoint(s: Large, lo: nat, hi: nat, all: set<TreeNode>)
    requires Inv(s, lo, hi, all)
    ensures Disjoint(s.occupied, s.free)
  {
    forall x: nat | Covers(s.occupied, x) ensures !Covers(s.free, x) {
      SpacedCovers(s.occupied, lo, hi, 0, x);
    }
  }

  // ----- Allocation -----

  datatype Allocated = Allocated(state: Large, result: Option<nat>)

  /**
   `allocate_large_object`, with the node taken from the treap stripped of its
   old children.
   */
  function Allocate(s: Large, objectSize: nat): Allocated {
    var size := Align(objectSize);
    if s.free.Empty? || s.free.block.size < size then Allocated(s, None)
    else
      var b := s.free.block;
      var rm := RemoveTreap(s.free, b.addr);
      var n := rm.out.value.node;
      if b.size == size then
        Allocated(Large(rm.rest, InsertBst(s.occupied, n, b), s.pool), Some(b.addr))
      else if s.pool == [] then
        var ins := InsertTreap(rm.rest, n, b);
        Allocated(Large(ins.tree, s.occupied, ins.freed + s.pool), None)
      else
        var ins := InsertTreap(rm.rest, s.pool[0], Remainder(b, size));
        Allocated(Large(ins.tree, InsertBst(s.occupied, n, b.(size := size)), ins.freed + s.pool[1..]), Some(b.addr))
  }

  /** The three ways an allocation can end once the root fits. */
  lemma AllocateCases(s: Large, size: nat)
    requires size % 8 == 0 && s.free.Fork? && s.free.block.size >= size
    ensures
      var (b, n, rest) := (s.free.block, s.free.node, Merge(s.free.left, s.free.right));
      Allocate(s, size) ==
        if b.size == size then
          Allocated(Large(rest, InsertBst(s.occupied, n, b), s.pool), Some(b.addr))
        else if s.pool == [] then
          var ins := InsertTreap(rest, n, b);
          Allocated(Large(ins.tree, s.occupied, ins.freed + s.pool), None)
        else
          var ins := InsertTreap(rest, s.pool[0], Remainder(b, size));
          Allocated(Large(ins.tree, InsertBst(s.occupied, n, b.(size := size)), ins.freed + s.pool[1..]), Some(b.addr))
  {
  }

  /** What is left of free block `b` after its first `size` bytes are given out. */
  function Remainder(b: Block, size: nat): Block
    requires size <= b.size
  {
    Block(b.addr + size, b.size - size, false)
  }

  /** Taking the root out of the treap. */
  lemma TakeRoot(t: Tree, lo: nat, hi: nat)
    requires t.Fork? && FreeTreap(t, lo, hi)
    ensures var rest := Merge(t.left, t.right);
      && FreeTreap(rest, lo, hi)
      && Avoids(rest, t.block.addr - 1, t.block.End() + 1)
  {
    var b := t.block;
    SpacedWiden(t.right, b.End() + 1, hi, 1, b.addr, hi, 1);
    MergeFree(t.left, t.right, lo, b.addr - 1, hi);
    SpacedAvoids(t.left, lo, b.addr - 1, 1, b.addr - 1, b.End() + 1);
    SpacedAvoids(t.right, b.End() + 1, hi, 1, b.addr - 1, b.End() + 1);
    MergeAvoids(t.left, t.right, b.addr - 1, b.End() + 1);
  }

  lemma TakeRootCovers(t: Tree, lo: nat, hi: nat)
    requires t.Fork? && Spaced(t, lo, hi, 1)
    ensures forall x: nat :: Covers(Merge(t.left, t.right), x) <==> Covers(t, x) && !t.block.Within(x)
  {
    forall x: nat ensures Covers(Merge(t.left, t.right), x) <==> Covers(t, x) && !t.block.Within(x) {
      MergeCovers(t.left, t.right, x);
      if Covers(t.left, x) { SpacedCovers(t.left, lo, t.block.addr - 1, 1, x); }
      if Covers(t.right, x) { SpacedCovers(t.right, t.block.End() + 1, hi, 1, x); }
    }
  }

  lemma {:induction false} SpacedAvoids(t: Tree, lo: int, hi: int, gap: nat, from: int, to: int)
    requires Spaced(t, lo, hi, gap) && (hi <= from || to <= lo)
    ensures Avoids(t, from, to)
  {
    if t.Fork? {
      SpacedAvoids(t.left, lo, t.block.addr - gap, gap, from, to);
      SpacedAvoids(t.right, t.block.End() + gap, hi, gap, from, to);
    }
  }

  lemma {:induction false} MergeAvoids(l: Tree, r: Tree, from: int, to: int)
    requires Avoids(l, from, to) && Avoids(r, from, to)
    ensures Avoids(Merge(l, r), from, to)
    decreases l, r
  {
    if l.Fork? && r.Fork? {
      if l.block.size > r.block.size { MergeAvoids(l.right, r, from, to); } else { MergeAvoids(l, r.left, from, to); }
    }
  }

  lemma {:induction false} AvoidsLess(t: Tree, from: int, to: int, from': int, to': int)
    requires Avoids(t, from, to) && from <= from' && to' <= to
    ensures Avoids(t, from', to')
  {
    if t.Fork? {
      AvoidsLess(t.left, from, to, from', to');
      AvoidsLess(t.right, from, to, from', to');
    }
  }

  /** The occupied tree takes a piece `b` of the free root. */
  lemma GiveOut(s: Large, lo: nat, hi: nat, all: set<TreeNode>, n: TreeNode, b: Block)
    requires Inv(s, lo, hi, all) && s.free.Fork?
    requires b.addr == s.free.block.addr && 0 < b.size <= s.free.block.size && Aligned(b)
    ensures var occ := InsertBst(s.occupied, n, b);
      && Spaced(occ, lo, hi, 0) && AllAligned(occ)
      && (forall x: nat :: Covers(occ, x) <==> Covers(s.occupied, x) || b.Within(x))
      && Blocks(occ) == Blocks(s.occupied) + {b}
  {
    forall x: nat | b.Within(x) ensures !Covers(s.occupied, x) { assert Covers(s.free, x); }
    ApartIsClear(s.occupied, lo, hi, 0, b);
    InsertBstSpaced(s.occupied, lo, hi, n, b);
    InsertBstHolds(s.occupied, n, b);
  }

  lemma ExactFitKeepsInv(s: Large, lo: nat, hi: nat, all: set<TreeNode>)
    requires Inv(s, lo, hi, all) && s.free.Fork?
    ensures var rm := RemoveTreap(s.free, s.free.block.addr);
      Inv(Large(rm.rest, InsertBst(s.occupied, s.free.node, s.free.block), s.pool), lo, hi, all)
  {
    TakeRoot(s.free, lo, hi);
    TakeRootCovers(s.free, lo, hi);
    GiveOut(s, lo, hi, all, s.free.node, s.free.block);
    MergeNodes(s.free.left, s.free.right);
    InsertBstNodes(s.occupied, s.free.node, s.free.block);
  }

  /** The remainder of the root goes back into the treap. */
  lemma RemainderIsClear(t: Tree, lo: nat, hi: nat, size: nat)
    requires t.Fork? && FreeTreap(t, lo, hi) && 0 < size < t.block.size && size % 8 == 0
    ensures
      var (rest, r) := (Merge(t.left, t.right), Remainder(t.block, size));
      && FreeTreap(rest, lo, hi) && Clear(rest, r)
      && Aligned(r) && !r.isMarked && r.size > 0 && lo <= r.addr && r.End() <= hi
  {
    TakeRoot(t, lo, hi);
    var r := Remainder(t.block, size);
    AvoidsLess(Merge(t.left, t.right), t.block.addr - 1, t.block.End() + 1, r.addr, r.End());
  }

  lemma KeepRemainder(t: Tree, lo: nat, hi: nat, n: TreeNode, size: nat)
    requires t.Fork? && FreeTreap(t, lo, hi) && 0 < size < t.block.size && size % 8 == 0
    ensures
      var rest := Merge(t.left, t.right);
      var r := Remainder(t.block, size);
      && Clear(rest, r)
      && FreeTreap(InsertTreap(rest, n, r).tree, lo, hi)
      && (forall x: nat :: Covers(InsertTreap(rest, n, r).tree, x)
            <==> Covers(t, x) && !t.block.(size := size).Within(x))
  {
    RemainderIsClear(t, lo, hi, size);
    TakeRootCovers(t, lo, hi);
    InsertDead(Merge(t.left, t.right), lo, hi, n, Remainder(t.block, size));
  }

  /** What lay below the root is in the free treap afterwards, and no node is given back. */
  lemma ChildrenStayFree(s: Large, lo: nat, hi: nat, all: set<TreeNode>, size: nat)
    requires Inv(s, lo, hi, all) && s.free.Fork? && size % 8 == 0 && 0 < size <= s.free.block.size
    requires s.free.block.size == size || s.pool != []
    ensures Nodes(s.free.left) + Nodes(s.free.right) <= Nodes(Allocate(s, size).state.free)
  {
    MergeNodes(s.free.left, s.free.right);
    AllocateCases(s, size);
    if s.free.block.size > size {
      var rest := Merge(s.free.left, s.free.right);
      var r := Remainder(s.free.block, size);
      TakeRoot(s.free, lo, hi);
      AvoidsLess(rest, s.free.block.addr - 1, s.free.block.End() + 1, r.addr - 1, r.End() + 1);
      InsertTreapAlone(rest, lo, hi, s.pool[0], r);
      assert s.pool[0] in Elems(s.pool);
      InsertTreapNodes(rest, s.pool[0], r);
    }
  }

  lemma SplitFitKeepsInv(s: Large, lo: nat, hi: nat, all: set<TreeNode>, size: nat)
    requires Inv(s, lo, hi, all) && s.free.Fork? && s.pool != []
    requires 0 < size < s.free.block.size && size % 8 == 0
    ensures
      var b := s.free.block;
      var ins := InsertTreap(Merge(s.free.left, s.free.right), s.pool[0], Remainder(b, size));
      Inv(Large(ins.tree, InsertBst(s.occupied, s.free.node, b.(size := size)), ins.freed + s.pool[1..]), lo, hi, all)
  {
    var b := s.free.block;
    KeepRemainder(s.free, lo, hi, s.pool[0], size);
    GiveOut(s, lo, hi, all, s.free.node, b.(size := size));
    SplitFitNodes(s, all, Remainder(b, size), b.(size := size));
  }

  lemma SplitFitNodes(s: Large, all: set<TreeNode>, r: Block, b: Block)
    requires Owned(s.occupied, s.free, s.pool, all) && s.free.Fork? && s.pool != []
    ensures
      var ins := InsertTreap(Merge(s.free.left, s.free.right), s.pool[0], r);
      Owned(InsertBst(s.occupied, s.free.node, b), ins.tree, ins.freed + s.pool[1..], all)
  {
    var rest := Merge(s.free.left, s.free.right);
    MergeNodes(s.free.left, s.free.right);
    InsertBstNodes(s.occupied, s.free.node, b);
    PopNode(s.pool);
    InsertTreapNodes(rest, s.pool[0], r);
    var ins := InsertTreap(rest, s.pool[0], r);
    MoveNode(InsertBst(s.occupied, s.free.node, b), rest, ins.tree, s.pool[1..], ins.freed, s.pool[0], all);
  }

  lemma PopNode(p: seq<TreeNode>)
    requires p != [] && NoRepeats(p)
    ensures NoRepeats(p[1..]) && p[0] !in Elems(p[1..]) && Elems(p) == {p[0]} + Elems(p[1..])
  {
    assert p == [p[0]] + p[1..];
    ElemsConcat([p[0]], p[1..]);
    assert Elems([p[0]]) == {p[0]};
  }

  /** With the pool empty the root goes back and nothing changes but the shape of the treap. */
  lemma RootIsClear(t: Tree, lo: nat, hi: nat)
    requires t.Fork? && FreeTreap(t, lo, hi)
    ensures
      var (rest, b) := (Merge(t.left, t.right), t.block);
      && FreeTreap(rest, lo, hi) && Avoids(rest, b.addr - 1, b.End() + 1) && Clear(rest, b)
      && Aligned(b) && !b.isMarked && b.size > 0 && lo <= b.addr && b.End() <= hi
  {
    TakeRoot(t, lo, hi);
    AvoidsLess(Merge(t.left, t.right), t.block.addr - 1, t.block.End() + 1, t.block.addr, t.block.End());
  }

  lemma PutBackTreap(t: Tree, lo: nat, hi: nat)
    requires t.Fork? && FreeTreap(t, lo, hi)
    ensures
      var ins := InsertTreap(Merge(t.left, t.right), t.node, t.block);
      && FreeTreap(ins.tree, lo, hi) && (forall x: nat :: Covers(ins.tree, x) <==> Covers(t, x))
  {
    RootIsClear(t, lo, hi);
    TakeRootCovers(t, lo, hi);
    InsertDead(Merge(t.left, t.right), lo, hi, t.node, t.block);
  }

  lemma PutBackBlocks(t: Tree, lo: nat, hi: nat)
    requires t.Fork? && FreeTreap(t, lo, hi)
    ensures
      var ins := InsertTreap(Merge(t.left, t.right), t.node, t.block);
      Blocks(ins.tree) == Blocks(t) && ins.freed == []
  {
    RootIsClear(t, lo, hi);
    var (rest, b) := (Merge(t.left, t.right), t.block);
    assert Spaced(rest, lo, hi, 1) && Avoids(rest, b.addr - 1, b.End() + 1);
    InsertTreapAlone(rest, lo, hi, t.node, b);
    MergeBlocks(t.left, t.right);
  }

  lemma PutBack(s: Large, lo: nat, hi: nat, all: set<TreeNode>)
    requires Inv(s, lo, hi, all) && s.free.Fork?
    ensures
      var ins := InsertTreap(Merge(s.free.left, s.free.right), s.free.node, s.free.block);
      && Inv(Large(ins.tree, s.occupied, ins.freed + s.pool), lo, hi, all)
      && Blocks(ins.tree) == Blocks(s.free) && ins.freed == []
  {
    PutBackTreap(s.free, lo, hi);
    PutBackBlocks(s.free, lo, hi);
    PutBackNodes(s, all);
  }

  lemma PutBackNodes(s: Large, all: set<TreeNode>)
    requires Owned(s.occupied, s.free, s.pool, all) && s.free.Fork?
    ensures
      var ins := InsertTreap(Merge(s.free.left, s.free.right), s.free.node, s.free.block);
      Owned(s.occupied, ins.tree, ins.freed + s.pool, all)
  {
    MergeNodes(s.free.left, s.free.right);
    var rest := Merge(s.free.left, s.free.right);
    InsertTreapNodes(rest, s.free.node, s.free.block);
    var ins := InsertTreap(rest, s.free.node, s.free.block);
    MoveNode(s.occupied, rest, ins.tree, s.pool, ins.freed, s.free.node, all);
  }

  lemma AllocateKeepsInv(s: Large, lo: nat, hi: nat, all: set<TreeNode>, objectSize: nat)
    requires Inv(s, lo, hi, all) && objectSize > 0
    ensures Inv(Allocate(s, objectSize).state, lo, hi, all)
  {
    var size := Align(objectSize);
    if s.free.Fork? && s.free.block.size >= size {
      if s.free.block.size == size {
        ExactFitKeepsInv(s, lo, hi, all);
      } else if s.pool == [] {
        PutBack(s, lo, hi, all);
      } else {
        SplitFitKeepsInv(s, lo, hi, all, size);
      }
    }
  }

  /** Some free block has at least `size` bytes. */
  ghost predicate Fits(t: Tree, size: nat) { exists b :: b in Blocks(t) && b.size >= size }

  /** No free block is large enough, or some block is larger than asked for and no node is left for a remainder. */
  ghost predicate Refused(free: Tree, pool: seq<TreeNode>, size: nat) {
    !Fits(free, size) || (Fits(free, size + 1) && pool == [])
  }

  /**
   Looking at the root is enough: allocation fails exactly when no free block is
   large enough, or when the largest one is not an exact fit and there is no node
   for the remainder; a failure changes no block.
   */
  lemma AllocateComplete(s: Large, lo: nat, hi: nat, all: set<TreeNode>, objectSize: nat)
    requires Inv(s, lo, hi, all) && objectSize > 0
    ensures
      var size := Align(objectSize);
      var a := Allocate(s, objectSize);
      && (a.result.None? <==> Refused(s.free, s.pool, size))
      && (a.result.None? ==> Blocks(a.state.free) == Blocks(s.free) && a.state.occupied == s.occupied
                             && a.state.pool == s.pool)
  {
    var size := Align(objectSize);
    FitsAtRoot(s.free, size);
    FitsAtRoot(s.free, size + 1);
    if s.free.Fork? && s.free.block.size > size && s.pool == [] {
      PutBack(s, lo, hi, all);
    }
  }

  lemma FitsAtRoot(t: Tree, size: nat)
    requires MaxHeap(t)
    ensures Fits(t, size) <==> t.Fork? && t.block.size >= size
  {
    if t.Fork? && t.block.size >= size { assert t.block in Blocks(t); }
    if t.Fork? { BiggestAtRoot(t); }
  }

  /** A successful allocation returns a block of exactly the aligned size that was free and is now occupied. */
  lemma AllocateGivesFreeBytes(s: Large, lo: nat, hi: nat, all: set<TreeNode>, objectSize: nat)
    requires Inv(s, lo, hi, all) && objectSize > 0 && Allocate(s, objectSize).result.Some?
    ensures
      var a := Allocate(s, objectSize);
      var b := Block(a.result.value, Align(objectSize), false);
      && a.result.value % 8 == 0
      && (forall x: nat :: b.Within(x) ==> Covers(s.free, x))
      && Blocks(a.state.occupied) == Blocks(s.occupied) + {b}
      && (forall x: nat :: Covers(a.state.free, x) <==> Covers(s.free, x) && !b.Within(x))
  {
    var size := Align(objectSize);
    var b := s.free.block.(size := size);
    GiveOut(s, lo, hi, all, s.free.node, b);
    if s.free.block.size == size {
      TakeRootCovers(s.free, lo, hi);
    } else {
      KeepRemainder(s.free, lo, hi, s.pool[0], size);
    }
  }

  /** What is handed out is cut from the front of a largest free block. */
  lemma AllocateTakesLargest(s: Large, lo: nat, hi: nat, all: set<TreeNode>, objectSize: nat)
    requires Inv(s, lo, hi, all) && objectSize > 0 && Allocate(s, objectSize).result.Some?
    ensures exists b :: Largest(s.free, b) && b.addr == Allocate(s, objectSize).result.value && Align(objectSize) <= b.size
  {
    var b := s.free.block;
    assert Largest(s.free, b) by { assert b in Blocks(s.free); BiggestAtRoot(s.free); }
  }

  ghost predicate Largest(t: Tree, b: Block) { b in Blocks(t) && forall c :: c in Blocks(t) ==> c.size <= b.size }

  lemma BiggestAtRoot(t: Tree)
    requires MaxHeap(t) && t.Fork?
    ensures forall c :: c in Blocks(t) ==> c.size <= t.block.size
  {
    forall c | c in Blocks(t) ensures c.size <= t.block.size { RootIsLargest(t, c); }
  }

  // ----- Sweeping -----

  function SweepWith(s: Large, repaired: bool): Large {
    var c := Cleanup(s.occupied, s.free, s.pool, repaired);
    Large(c.free, c.occupied, c.pool)
  }

  function SweepStep(s: Large): Large { SweepWith(s, true) }

  /** The occupied side of a sweep is right with and without the repair. */
  lemma SweepKeepsOccupied(s: Large, repaired: bool, lo: nat, hi: nat, all: set<TreeNode>)
    requires Inv(s, lo, hi, all)
    ensures var t := SweepWith(s, repaired).occupied;
      Spaced(t, lo, hi, 0) && AllAligned(t) && Blocks(t) == Survivors(s.occupied)
  {
    CleanupKeepsSurvivors(s.occupied, s.free, s.pool, repaired, lo, hi);
    var t := SweepWith(s, repaired).occupied;
    forall b | b in Blocks(t) ensures Aligned(b) { SurvivorsAligned(s.occupied, b); }
    AllAlignedFromBlocks(t);
  }

  lemma SweepKeepsInv(s: Large, lo: nat, hi: nat, all: set<TreeNode>)
    requires Inv(s, lo, hi, all)
    ensures Inv(SweepStep(s), lo, hi, all)
    ensures Blocks(SweepStep(s).occupied) == Survivors(s.occupied)
  {
    TilesDisjoint(s, lo, hi, all);
    SweepKeepsOccupied(s, true, lo, hi, all);
    CleanupFreesDead(s.occupied, s.free, s.pool, lo, hi, lo, hi);
    CleanupKeepsNodes(s.occupied, s.free, s.pool, true, all);
    var s' := SweepStep(s);
    forall x: nat | lo <= x < hi ensures Covers(s'.free, x) <==> !Covers(s'.occupied, x) {
      CleanupLeavesLiveBytes(s.occupied, s.free, s.pool, true, x);
      CoversSplitsByMark(s.occupied, x);
      LiveOrDead(s.occupied, lo, hi, x);
    }
  }

  /** The sweep keeps the invariant exactly when it is repaired or no unmarked block is straddled. */
  lemma SweepKeepsInvIff(s: Large, repaired: bool, lo: nat, hi: nat, all: set<TreeNode>)
    requires Inv(s, lo, hi, all)
    ensures Inv(SweepWith(s, repaired), lo, hi, all) <==> repaired || !Straddled(s.occupied)
    ensures var s' := SweepWith(s, repaired); Owned(s'.occupied, s'.free, s'.pool, all)
  {
    TilesDisjoint(s, lo, hi, all);
    CleanupKeepsNodes(s.occupied, s.free, s.pool, repaired, all);
    if repaired {
      SweepKeepsInv(s, lo, hi, all);
    } else if Straddled(s.occupied) {
      var x, _ := StraddledShows(s.occupied, lo, hi);
      CleanupAsWritten(s.occupied, s.free, s.pool, lo, hi, lo, hi);
      CleanupLeavesLiveBytes(s.occupied, s.free, s.pool, false, x);
      CoversSplitsByMark(s.occupied, x);
      SpacedCovers(s.occupied, lo, hi, 0, x);
    } else {
      AsWrittenAgrees(s.occupied, s.free, s.pool);
      SweepKeepsInv(s, lo, hi, all);
    }
  }

  // ----- Runs -----

  datatype Op = Alloc(size: nat) | Mark(addr: nat) | Sweeping

  function Step(s: Large, op: Op): Large {
    match op
    case Alloc(size) => if size > 0 then Allocate(s, size).state else s
    case Mark(addr) => s.(occupied := SetMark(s.occupied, addr))
    case Sweeping => SweepStep(s)
  }

  function Run(s: Large, ops: seq<Op>): Large
    decreases |ops|
  {
    if ops == [] then s else Run(Step(s, ops[0]), ops[1..])
  }

  /** The heap as `__init_large_allocator` leaves it: one free block, every other node in the pool. */
  function Initial(n: TreeNode, pool: seq<TreeNode>, lo: nat, hi: nat): Large
    requires lo < hi
  {
    Large(Fork(n, Block(lo, hi - lo, false), Empty, Empty), Empty, pool)
  }

  lemma StepKeepsInv(s: Large, op: Op, lo: nat, hi: nat, all: set<TreeNode>)
    requires Inv(s, lo, hi, all)
    ensures Inv(Step(s, op), lo, hi, all)
  {
    match op
    case Alloc(size) => if size > 0 { AllocateKeepsInv(s, lo, hi, all, size); }
    case Mark(addr) => SetMarkKeepsShape(s.occupied, lo, hi, addr);
    case Sweeping => SweepKeepsInv(s, lo, hi, all);
  }

  lemma {:induction false} RunKeepsInv(s: Large, ops: seq<Op>, lo: nat, hi: nat, all: set<TreeNode>)
    requires Inv(s, lo, hi, all)
    ensures Inv(Run(s, ops), lo, hi, all)
    decreases |ops|
  {
    if ops != [] {
      StepKeepsInv(s, ops[0], lo, hi, all);
      RunKeepsInv(Step(s, ops[0]), ops[1..], lo, hi, all);
    }
  }

  lemma InitialInv(n: TreeNode, pool: seq<TreeNode>, lo: nat, hi: nat)
    requires lo < hi && lo % 8 == 0 && hi % 8 == 0 && NoRepeats(pool) && n !in pool
    ensures Inv(Initial(n, pool, lo, hi), lo, hi, {n} + Elems(pool))
  {
    var b := Block(lo, hi - lo, false);
    var t := Fork(n, b, Empty, Empty);
    assert Plain(b);
    assert MaxHeap(Empty) && Spaced(Empty, lo, lo - 1, 1) && Spaced(Empty, hi + 1, hi, 1) && AllPlain(Empty);
    assert FreeTreap(t, lo, hi);
    forall x: nat | lo <= x < hi ensures Covers(t, x) && !Covers(Empty, x) {}
  }

  /** Over every run of allocations, marks and sweeps the two trees tile the heap. */
  lemma EveryRunTiles(n: TreeNode, pool: seq<TreeNode>, lo: nat, hi: nat, ops: seq<Op>)
    requires lo < hi && lo % 8 == 0 && hi % 8 == 0 && NoRepeats(pool) && n !in pool
    ensures Inv(Run(Initial(n, pool, lo, hi), ops), lo, hi, {n} + Elems(pool))
  {
    InitialInv(n, pool, lo, hi);
    RunKeepsInv(Initial(n, pool, lo, hi), ops, lo, hi, {n} + Elems(pool));
  }
}
