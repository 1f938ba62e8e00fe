/**
 Consequences of the large-heap invariant: the free blocks are the maximal runs
 of free bytes, an unmarked heap sweeps back to one block, and fragmentation is
 bounded by the number of live blocks.
 */
module LargeShape {
  import opened Sequences
  import opened BlockTrees
  import opened TreapLaws
  import opened SearchLaws
  import opened SweepLaws
  import opened LargeRuns

  // ----- Free blocks are maximal runs -----

  /** `b` is a run of free bytes that cannot be extended on either side. */
  ghost predicate MaximalRun(t: Tree, b: Block) {
    && b.size > 0 && !b.isMarked
    && (forall x: nat :: b.Within(x) ==> Covers(t, x))
    && !Covers(t, b.End())
    && (b.addr > 0 ==> !Covers(t, b.addr - 1))
  }

  lemma {:induction false} FreeBlockIsMaximal(t: Tree, lo: int, hi: int, b: Block)
    requires Spaced(t, lo, hi, 1) && AllPlain(t) && b in Blocks(t)
    ensures MaximalRun(t, b)
  {
    BlockBounds(t, lo, hi, 1, b);
    BlockEnds(t, lo, hi, b);
    forall x: nat | b.Within(x) ensures Covers(t, x) { CoversBlock(t, b, x); }
  }

  lemma {:induction false} BlockEnds(t: Tree, lo: int, hi: int, b: Block)
    requires Spaced(t, lo, hi, 1) && AllPlain(t) && b in Blocks(t)
    ensures !b.isMarked && !Covers(t, b.End()) && (b.addr > 0 ==> !Covers(t, b.addr - 1))
  {
    var c, l, r := t.block, t.left, t.right;
    if b in Blocks(l) { BlockEnds(l, lo, c.addr - 1, b); BlockBounds(l, lo, c.addr - 1, 1, b); }
    if b in Blocks(r) { BlockEnds(r, c.End() + 1, hi, b); BlockBounds(r, c.End() + 1, hi, 1, b); }
    if Covers(l, b.End()) { SpacedCovers(l, lo, c.addr - 1, 1, b.End()); }
    if Covers(r, b.End()) { SpacedCovers(r, c.End() + 1, hi, 1, b.End()); }
    if b.addr > 0 && Covers(l, b.addr - 1) { SpacedCovers(l, lo, c.addr - 1, 1, b.addr - 1); }
    if b.addr > 0 && Covers(r, b.addr - 1) { SpacedCovers(r, c.End() + 1, hi, 1, b.addr - 1); }
  }

  lemma {:induction false} Holder(t: Tree, x: nat) returns (c: Block)
    requires Covers(t, x)
    ensures c in Blocks(t) && c.Within(x)
  {
    if t.block.Within(x) {
      c := t.block;
    } else if Covers(t.left, x) {
      c := Holder(t.left, x);
    } else {
      c := Holder(t.right, x);
    }
  }

  /** The free tree holds exactly the maximal runs of free bytes. */
  lemma FreeBlocksAreMaximalRuns(t: Tree, lo: int, hi: int, b: Block)
    requires Spaced(t, lo, hi, 1) && AllPlain(t)
    ensures b in Blocks(t) <==> MaximalRun(t, b)
  {
    if b in Blocks(t) {
      FreeBlockIsMaximal(t, lo, hi, b);
    } else if MaximalRun(t, b) {
      assert b.Within(b.addr);
      var c := Holder(t, b.addr);
      FreeBlockIsMaximal(t, lo, hi, c);
      MaximalRunsCoincide(t, b, c);
    }
  }

  lemma MaximalRunsCoincide(t: Tree, b: Block, c: Block)
    requires MaximalRun(t, b) && MaximalRun(t, c) && c.Within(b.addr)
    ensures b == c
  {
    assert c.addr < b.addr ==> c.Within(b.addr - 1);
    assert b.End() < c.End() ==> c.Within(b.End());
    assert c.End() < b.End() ==> b.Within(c.End());
  }

  /** So the bytes covered determine the free blocks, whatever the shape of the treap. */
  lemma SameBytesSameBlocks(t: Tree, u: Tree, lo: int, hi: int)
    requires Spaced(t, lo, hi, 1) && AllPlain(t) && Spaced(u, lo, hi, 1) && AllPlain(u)
    requires forall x: nat :: Covers(t, x) <==> Covers(u, x)
    ensures Blocks(t) == Blocks(u)
  {
    forall b: Block ensures b in Blocks(t) <==> b in Blocks(u) {
      FreeBlocksAreMaximalRuns(t, lo, hi, b);
      FreeBlocksAreMaximalRuns(u, lo, hi, b);
    }
  }

  /** Sweeping a heap with nothing marked restores the single initial block. */
  lemma SweepOfGarbageRestoresHeap(s: Large, lo: nat, hi: nat, all: set<TreeNode>)
    requires Inv(s, lo, hi, all) && lo < hi && !HasLive(s.occupied)
    ensures SweepStep(s).occupied == Empty
    ensures Blocks(SweepStep(s).free) == {Block(lo, hi - lo, false)}
  {
    var s' := SweepStep(s);
    SweepKeepsInv(s, lo, hi, all);
    CleanupEmptyIffNoLive(s.occupied, s.free, s.pool, true);
    var b := Block(lo, hi - lo, false);
    forall x: nat ensures Covers(s'.free, x) <==> lo <= x < hi {
      if Covers(s'.free, x) { SpacedCovers(s'.free, lo, hi, 1, x); }
    }
    FreeBlocksAreMaximalRuns(s'.free, lo, hi, b);
    forall c | c in Blocks(s'.free) ensures c == b { OnlyRun(s'.free, lo, hi, c); }
  }

  lemma OnlyRun(t: Tree, lo: nat, hi: nat, c: Block)
    requires Spaced(t, lo, hi, 1) && AllPlain(t) && c in Blocks(t)
    requires forall x: nat :: Covers(t, x) <==> lo <= x < hi
    ensures c == Block(lo, hi - lo, false)
  {
    FreeBlockIsMaximal(t, lo, hi, c);
    BlockBounds(t, lo, hi, 1, c);
  }

  // ----- Fragmentation -----

  /** Number of blocks that start below `x`. */
  function StartsBelow(t: Tree, x: int): nat {
    match t
    case Empty => 0
    case Fork(_, b, l, r) => (if b.addr < x then 1 else 0) + StartsBelow(l, x) + StartsBelow(r, x)
  }

  predicate StartsAt(t: Tree, x: int) {
    t.Fork? && (t.block.addr == x || StartsAt(t.left, x) || StartsAt(t.right, x))
  }

  lemma {:induction false} StartsInBounds(t: Tree, lo: int, hi: int, gap: nat, x: int)
    requires Spaced(t, lo, hi, gap)
    ensures StartsAt(t, x) ==> lo <= x < hi && x >= 0 && Covers(t, x)
    ensures x <= lo ==> StartsBelow(t, x) == 0
    ensures hi <= x ==> StartsBelow(t, x) == Count(t)
  {
    if t.Fork? {
      StartsInBounds(t.left, lo, t.block.addr - gap, gap, x);
      StartsInBounds(t.right, t.block.End() + gap, hi, gap, x);
    }
  }

  lemma {:induction false} StartsStep(t: Tree, lo: int, hi: int, gap: nat, x: int)
    requires Spaced(t, lo, hi, gap)
    ensures StartsBelow(t, x + 1) == StartsBelow(t, x) + (if StartsAt(t, x) then 1 else 0)
  {
    if t.Fork? {
      StartsStep(t.left, lo, t.block.addr - gap, gap, x);
      StartsStep(t.right, t.block.End() + gap, hi, gap, x);
      StartsInBounds(t.left, lo, t.block.addr - gap, gap, x);
      StartsInBounds(t.right, t.block.End() + gap, hi, gap, x);
    }
  }

  /** A covered byte that no block starts at continues a block from the left. */
  lemma {:induction false} Continues(t: Tree, x: nat)
    requires Covers(t, x) && !StartsAt(t, x)
    ensures x > 0 && Covers(t, x - 1)
  {
    if t.block.Within(x) {
    } else if Covers(t.left, x) {
      Continues(t.left, x);
    } else {
      Continues(t.right, x);
    }
  }

  /** No free block ends where another starts. */
  lemma {:induction false} StartIsAlone(t: Tree, lo: int, hi: int, x: nat)
    requires Spaced(t, lo, hi, 1) && StartsAt(t, x) && x > 0
    ensures !Covers(t, x - 1)
  {
    var c, l, r := t.block, t.left, t.right;
    StartsInBounds(l, lo, c.addr - 1, 1, x);
    StartsInBounds(r, c.End() + 1, hi, 1, x);
    if StartsAt(l, x) { StartIsAlone(l, lo, c.addr - 1, x); }
    if StartsAt(r, x) { StartIsAlone(r, c.End() + 1, hi, x); }
    if Covers(l, x - 1) { SpacedCovers(l, lo, c.addr - 1, 1, x - 1); }
    if Covers(r, x - 1) { SpacedCovers(r, c.End() + 1, hi, 1, x - 1); }
  }

  /** Up to address `x` the free blocks outnumber the occupied ones by at most the run that is still open. */
  lemma {:induction false} PrefixBound(s: Large, lo: nat, hi: nat, all: set<TreeNode>, x: nat)
    requires Inv(s, lo, hi, all) && lo <= x <= hi
    ensures StartsBelow(s.free, x) <= StartsBelow(s.occupied, x) + (if x > lo && Covers(s.free, x - 1) then 1 else 0)
    decreases x
  {
    StartsInBounds(s.free, lo, hi, 1, lo);
    StartsInBounds(s.occupied, lo, hi, 0, lo);
    if x > lo {
      var y := x - 1;
      PrefixBound(s, lo, hi, all, y);
      StartsStep(s.free, lo, hi, 1, y);
      StartsStep(s.occupied, lo, hi, 0, y);
      StartsInBounds(s.free, lo, hi, 1, y);
      StartsInBounds(s.occupied, lo, hi, 0, y);
      if StartsAt(s.free, y) && y > lo { StartIsAlone(s.free, lo, hi, y); }
      if !Covers(s.free, y) && !StartsAt(s.occupied, y) { Continues(s.occupied, y); }
      if y > lo { OneOwner(s, lo, hi, all, y - 1); }
    }
  }

  lemma OneOwner(s: Large, lo: nat, hi: nat, all: set<TreeNode>, x: nat)
    requires Inv(s, lo, hi, all) && lo <= x < hi
    ensures Covers(s.free, x) <==> !Covers(s.occupied, x)
  {
  }

  lemma {:induction false} CountIsNodes(t: Tree)
    requires Separate(t)
    ensures |Nodes(t)| == Count(t)
  {
    if t.Fork? {
      CountIsNodes(t.left);
      CountIsNodes(t.right);
    }
  }

  lemma {:induction false} CountIsElems(p: seq<TreeNode>)
    requires NoRepeats(p)
    ensures |Elems(p)| == |p|
  {
    if p != [] {
      PopNode(p);
      CountIsElems(p[1..]);
    }
  }

  /**
   There is at most one free block more than there are occupied blocks, and no
   node is ever lost; so the pool runs dry only when twice the occupied blocks
   plus one reach the number of nodes.
   */
  lemma FragmentationBound(s: Large, lo: nat, hi: nat, all: set<TreeNode>)
    requires Inv(s, lo, hi, all) && lo < hi
    ensures Count(s.free) <= Count(s.occupied) + 1
    ensures Count(s.free) + Count(s.occupied) + |s.pool| == |all|
    ensures s.pool == [] ==> 2 * Count(s.occupied) + 1 >= |all|
  {
    PrefixBound(s, lo, hi, all, hi);
    StartsInBounds(s.free, lo, hi, 1, hi);
    StartsInBounds(s.occupied, lo, hi, 0, hi);
    CountIsNodes(s.free);
    CountIsNodes(s.occupied);
    CountIsElems(s.pool);
    UnionSize(Nodes(s.occupied), Nodes(s.free), Elems(s.pool));
  }

  lemma UnionSize(a: set<TreeNode>, b: set<TreeNode>, c: set<TreeNode>)
    requires a !! b && a !! c && b !! c
    ensures |a + b + c| == |a| + |b| + |c|
  {
    assert (a + b) !! c;
  }
}
