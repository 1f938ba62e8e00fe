/**
 Laws of the two block trees: what splitting, merging, removing and coalescing
 do to the address order, the heap order and the bytes covered.
 */
module TreapLaws {
  import opened BlockTrees

  // ----- Address order -----

  /**
   The blocks of `t` are non-empty, lie inside [lo, hi), are in address order
   and leave at least `gap` bytes between any two of them.  Gap 0 is the order
   of a search tree of disjoint blocks; gap 1 says also that no two touch.
   */
  ghost predicate Spaced(t: Tree, lo: int, hi: int, gap: nat) {
    t.Fork? ==>
      && t.block.size > 0 && lo <= t.block.addr && t.block.End() <= hi
      && Spaced(t.left, lo, t.block.addr - gap, gap)
      && Spaced(t.right, t.block.End() + gap, hi, gap)
  }

  lemma {:induction false} SpacedWiden(t: Tree, lo: int, hi: int, gap: nat, lo': int, hi': int, gap': nat)
    requires Spaced(t, lo, hi, gap) && lo' <= lo && hi <= hi' && gap' <= gap
    ensures Spaced(t, lo', hi', gap')
  {
    if t.Fork? {
      SpacedWiden(t.left, lo, t.block.addr - gap, gap, lo', t.block.addr - gap', gap');
      SpacedWiden(t.right, t.block.End() + gap, hi, gap, t.block.End() + gap', hi', gap');
    }
  }

  /** Covered bytes lie inside the bounds. */
  lemma {:induction false} SpacedCovers(t: Tree, lo: int, hi: int, gap: nat, x: nat)
    requires Spaced(t, lo, hi, gap) && Covers(t, x)
    ensures lo <= x < hi
  {
    if t.block.Within(x) {
    } else if Covers(t.left, x) {
      SpacedCovers(t.left, lo, t.block.addr - gap, gap, x);
    } else {
      SpacedCovers(t.right, t.block.End() + gap, hi, gap, x);
    }
  }

  /** Every block of `t` ends by `from` or starts at `to` or later. */
  predicate Avoids(t: Tree, from: int, to: int) {
    t.Fork? ==>
      && (t.block.End() <= from || to <= t.block.addr)
      && Avoids(t.left, from, to) && Avoids(t.right, from, to)
  }

  /** No block of `t` shares a byte with `b`. */
  predicate Clear(t: Tree, b: Block) { Avoids(t, b.addr, b.End()) }

  lemma {:induction false} CoversBlock(t: Tree, b: Block, x: nat)
    requires b in Blocks(t) && b.Within(x)
    ensures Covers(t, x)
  {
    if b == t.block {
    } else if b in Blocks(t.left) {
      CoversBlock(t.left, b, x);
    } else {
      CoversBlock(t.right, b, x);
    }
  }

  lemma {:induction false} ApartIsClear(t: Tree, lo: int, hi: int, gap: nat, b: Block)
    requires Spaced(t, lo, hi, gap) && b.size > 0
    requires forall x: nat :: b.Within(x) ==> !Covers(t, x)
    ensures Clear(t, b)
  {
    if t.Fork? {
      var x := if t.block.addr <= b.addr then b.addr else t.block.addr;
      assert b.Within(x) ==> !Covers(t, x);
      ApartIsClear(t.left, lo, t.block.addr - gap, gap, b);
      ApartIsClear(t.right, t.block.End() + gap, hi, gap, b);
    }
  }

  // ----- Heap order -----

  function TopSize(t: Tree): nat { if t.Empty? then 0 else t.block.size }

  /** Max-heap by block size. */
  predicate MaxHeap(t: Tree) {
    t.Fork? ==>
      && MaxHeap(t.left) && MaxHeap(t.right)
      && TopSize(t.left) <= t.block.size && TopSize(t.right) <= t.block.size
  }

  lemma {:induction false} RootIsLargest(t: Tree, b: Block)
    requires MaxHeap(t) && b in Blocks(t)
    ensures b.size <= t.block.size
  {
    if b == t.block {
    } else if b in Blocks(t.left) {
      RootIsLargest(t.left, b);
    } else {
      RootIsLargest(t.right, b);
    }
  }

  // ----- Every block of a tree -----

  /** What the free tree's blocks look like: word-aligned and unmarked. */
  predicate Plain(b: Block) { b.addr % 8 == 0 && b.size % 8 == 0 && !b.isMarked }

  predicate AllPlain(t: Tree) { t.Fork? ==> Plain(t.block) && AllPlain(t.left) && AllPlain(t.right) }

  // ----- Split -----

  lemma {:induction false} SplitSpaced(t: Tree, lo: int, hi: int, gap: nat, a: nat, from: int, to: int)
    requires Spaced(t, lo, hi, gap) && from <= a < to && Avoids(t, from, to)
    ensures Spaced(Split(t, a).left, lo, from, gap) && Spaced(Split(t, a).left, lo, hi, gap)
    ensures Spaced(Split(t, a).right, to, hi, gap) && Spaced(Split(t, a).right, lo, hi, gap)
  {
    if t.Fork? {
      var p := Split(t, a);
      if a < t.block.addr {
        SplitSpaced(t.left, lo, t.block.addr - gap, gap, a, from, to);
        SpacedWiden(p.left, lo, t.block.addr - gap, gap, lo, hi, gap);
      } else {
        SplitSpaced(t.right, t.block.End() + gap, hi, gap, a, from, to);
        SpacedWiden(p.right, t.block.End() + gap, hi, gap, lo, hi, gap);
      }
    }
  }

  lemma {:induction false} SplitKeepsHeap(t: Tree, a: nat)
    requires MaxHeap(t)
    ensures MaxHeap(Split(t, a).left) && MaxHeap(Split(t, a).right)
    ensures TopSize(Split(t, a).left) <= TopSize(t) && TopSize(Split(t, a).right) <= TopSize(t)
  {
    if t.Fork? {
      if a < t.block.addr { SplitKeepsHeap(t.left, a); } else { SplitKeepsHeap(t.right, a); }
    }
  }

  lemma {:induction false} SplitCovers(t: Tree, a: nat, x: nat)
    ensures Covers(t, x) <==> Covers(Split(t, a).left, x) || Covers(Split(t, a).right, x)
  {
    if t.Fork? {
      if a < t.block.addr { SplitCovers(t.left, a, x); } else { SplitCovers(t.right, a, x); }
    }
  }

  lemma {:induction false} SplitPlain(t: Tree, a: nat)
    requires AllPlain(t)
    ensures AllPlain(Split(t, a).left) && AllPlain(Split(t, a).right)
  {
    if t.Fork? {
      if a < t.block.addr { SplitPlain(t.left, a); } else { SplitPlain(t.right, a); }
    }
  }

  lemma {:induction false} SplitBlocks(t: Tree, a: nat)
    ensures Blocks(Split(t, a).left) + Blocks(Split(t, a).right) == Blocks(t)
  {
    if t.Fork? {
      if a < t.block.addr { SplitBlocks(t.left, a); } else { SplitBlocks(t.right, a); }
    }
  }

  lemma {:induction false} SplitNodes(t: Tree, a: nat)
    ensures Nodes(Split(t, a).left) + Nodes(Split(t, a).right) == Nodes(t)
    ensures Separate(t) ==>
      && Separate(Split(t, a).left) && Separate(Split(t, a).right)
      && Nodes(Split(t, a).left) !! Nodes(Split(t, a).right)
  {
    if t.Fork? {
      if a < t.block.addr { SplitNodes(t.left, a); } else { SplitNodes(t.right, a); }
    }
  }

  // ----- Merge -----

  lemma {:induction false} MergeSpaced(l: Tree, r: Tree, lo: int, mid: int, hi: int, gap: nat)
    requires Spaced(l, lo, mid, gap) && Spaced(r, mid + gap, hi, gap)
    requires mid <= hi && lo <= mid + gap
    ensures Spaced(Merge(l, r), lo, hi, gap)
    decreases l, r
  {
    if l.Empty? {
      SpacedWiden(r, mid + gap, hi, gap, lo, hi, gap);
    } else if r.Empty? {
      SpacedWiden(l, lo, mid, gap, lo, hi, gap);
    } else if l.block.size > r.block.size {
      MergeSpaced(l.right, r, l.block.End() + gap, mid, hi, gap);
    } else {
      MergeSpaced(l, r.left, lo, mid, r.block.addr - gap, gap);
    }
  }

  lemma {:induction false} MergeKeepsHeap(l: Tree, r: Tree)
    requires MaxHeap(l) && MaxHeap(r)
    ensures MaxHeap(Merge(l, r))
    ensures TopSize(Merge(l, r)) == if TopSize(l) > TopSize(r) then TopSize(l) else TopSize(r)
    decreases l, r
  {
    if l.Fork? && r.Fork? {
      if l.block.size > r.block.size { MergeKeepsHeap(l.right, r); } else { MergeKeepsHeap(l, r.left); }
    }
  }

  lemma {:induction false} MergeCovers(l: Tree, r: Tree, x: nat)
    ensures Covers(Merge(l, r), x) <==> Covers(l, x) || Covers(r, x)
    decreases l, r
  {
    if l.Fork? && r.Fork? {
      if l.block.size > r.block.size { MergeCovers(l.right, r, x); } else { MergeCovers(l, r.left, x); }
    }
  }

  lemma {:induction false} MergePlain(l: Tree, r: Tree)
    requires AllPlain(l) && AllPlain(r)
    ensures AllPlain(Merge(l, r))
    decreases l, r
  {
    if l.Fork? && r.Fork? {
      if l.block.size > r.block.size { MergePlain(l.right, r); } else { MergePlain(l, r.left); }
    }
  }

  lemma {:induction false} MergeBlocks(l: Tree, r: Tree)
    ensures Blocks(Merge(l, r)) == Blocks(l) + Blocks(r)
    decreases l, r
  {
    if l.Fork? && r.Fork? {
      if l.block.size > r.block.size { MergeBlocks(l.right, r); } else { MergeBlocks(l, r.left); }
    }
  }

  lemma {:induction false} MergeNodes(l: Tree, r: Tree)
    ensures Nodes(Merge(l, r)) == Nodes(l) + Nodes(r)
    ensures Separate(l) && Separate(r) && Nodes(l) !! Nodes(r) ==> Separate(Merge(l, r))
    decreases l, r
  {
    if l.Fork? && r.Fork? {
      if l.block.size > r.block.size { MergeNodes(l.right, r); } else { MergeNodes(l, r.left); }
    }
  }

  // ----- The two ends -----

  lemma {:induction false} LeftmostSpaced(t: Tree, lo: int, hi: int, gap: nat)
    requires t.Fork? && Spaced(t, lo, hi, gap)
    ensures var first := Leftmost(t).block;
      && lo <= first.addr <= t.block.addr && first.End() <= hi && first.size > 0
      && Spaced(t, first.addr, hi, gap)
      && Spaced(DropMin(t), first.End() + gap, hi, gap)
  {
    if t.left.Fork? { LeftmostSpaced(t.left, lo, t.block.addr - gap, gap); }
  }

  lemma {:induction false} RightmostSpaced(t: Tree, lo: int, hi: int, gap: nat)
    requires t.Fork? && Spaced(t, lo, hi, gap)
    ensures var last := Rightmost(t).block;
      && t.block.addr <= last.addr && lo <= last.addr && t.block.End() <= last.End() <= hi && last.size > 0
      && Spaced(t, lo, last.End(), gap)
      && Spaced(DropMax(t), lo, last.addr - gap, gap)
  {
    if t.right.Fork? { RightmostSpaced(t.right, t.block.End() + gap, hi, gap); }
  }

  lemma {:induction false} DropMinKeepsHeap(t: Tree)
    requires t.Fork? && MaxHeap(t)
    ensures MaxHeap(DropMin(t)) && TopSize(DropMin(t)) <= TopSize(t)
  {
    if t.left.Fork? { DropMinKeepsHeap(t.left); }
  }

  lemma {:induction false} DropMaxKeepsHeap(t: Tree)
    requires t.Fork? && MaxHeap(t)
    ensures MaxHeap(DropMax(t)) && TopSize(DropMax(t)) <= TopSize(t)
  {
    if t.right.Fork? { DropMaxKeepsHeap(t.right); }
  }

  lemma {:induction false} DropMinCovers(t: Tree, x: nat)
    requires t.Fork?
    ensures Covers(t, x) <==> Covers(DropMin(t), x) || Leftmost(t).block.Within(x)
  {
    if t.left.Fork? { DropMinCovers(t.left, x); }
  }

  lemma {:induction false} DropMaxCovers(t: Tree, x: nat)
    requires t.Fork?
    ensures Covers(t, x) <==> Covers(DropMax(t), x) || Rightmost(t).block.Within(x)
  {
    if t.right.Fork? { DropMaxCovers(t.right, x); }
  }

  lemma {:induction false} DropMinPlain(t: Tree)
    requires t.Fork? && AllPlain(t)
    ensures AllPlain(DropMin(t)) && Plain(Leftmost(t).block)
  {
    if t.left.Fork? { DropMinPlain(t.left); }
  }

  lemma {:induction false} DropMaxPlain(t: Tree)
    requires t.Fork? && AllPlain(t)
    ensures AllPlain(DropMax(t)) && Plain(Rightmost(t).block)
  {
    if t.right.Fork? { DropMaxPlain(t.right); }
  }

  lemma {:induction false} DropMinNodes(t: Tree)
    requires t.Fork? && Separate(t)
    ensures Separate(DropMin(t)) && Leftmost(t).node !in Nodes(DropMin(t))
    ensures Nodes(DropMin(t)) + {Leftmost(t).node} == Nodes(t)
  {
    if t.left.Fork? { DropMinNodes(t.left); }
  }

  /** Searching for the largest address never meets the two-children case. */
  lemma {:induction false} RemoveRightmost(t: Tree, lo: int, hi: int, gap: nat, repaired: bool)
    requires t.Fork? && Spaced(t, lo, hi, gap)
    ensures RemoveBst(t, Rightmost(t).block.addr, repaired) == Removal(DropMax(t), Some(Rightmost(t)))
  {
    if t.right.Fork? {
      RightmostSpaced(t.right, t.block.End() + gap, hi, gap);
      RemoveRightmost(t.right, t.block.End() + gap, hi, gap, repaired);
    }
  }

  lemma {:induction false} RemoveLeftmost(t: Tree, lo: int, hi: int, gap: nat, repaired: bool)
    requires t.Fork? && Spaced(t, lo, hi, gap)
    ensures RemoveBst(t, Leftmost(t).block.addr, repaired) == Removal(DropMin(t), Some(Leftmost(t)))
  {
    if t.left.Fork? {
      LeftmostSpaced(t.left, lo, t.block.addr - gap, gap);
      RemoveLeftmost(t.left, lo, t.block.addr - gap, gap, repaired);
    }
  }

  // ----- Coalescing -----

  /** A treap of free blocks in good order inside [lo, hi): no two blocks touch. */
  ghost predicate FreeTreap(t: Tree, lo: int, hi: int) {
    MaxHeap(t) && Spaced(t, lo, hi, 1) && AllPlain(t)
  }

  lemma SplitFree(t: Tree, lo: int, hi: int, b: Block)
    requires FreeTreap(t, lo, hi) && Clear(t, b) && b.size > 0
    ensures FreeTreap(Split(t, b.addr).left, lo, b.addr)
    ensures FreeTreap(Split(t, b.addr).right, b.End(), hi)
  {
    SplitSpaced(t, lo, hi, 1, b.addr, b.addr, b.End());
    SplitKeepsHeap(t, b.addr);
    SplitPlain(t, b.addr);
  }

  lemma MergeFree(l: Tree, r: Tree, lo: int, mid: int, hi: int)
    requires FreeTreap(l, lo, mid) && FreeTreap(r, mid + 1, hi) && mid <= hi && lo <= mid + 1
    ensures FreeTreap(Merge(l, r), lo, hi)
  {
    MergeSpaced(l, r, lo, mid, hi, 1);
    MergeKeepsHeap(l, r);
    MergePlain(l, r);
  }

  /** After fusing on the left the rest ends strictly before the block. */
  /** Two plain blocks side by side make a plain block. */
  lemma PlainSum(b: Block, c: Block)
    requires Plain(b) && Plain(c)
    ensures Plain(Block(b.addr, b.size + c.size, false))
  {
  }

  lemma FuseLeftLaws(l: Tree, lo: int, b: Block)
    requires FreeTreap(l, lo, b.addr) && Plain(b) && lo <= b.addr && b.size > 0
    ensures var f := FuseLeft(l, b);
      && lo <= f.block.addr <= b.addr && f.block.End() == b.End() && Plain(f.block)
      && FreeTreap(f.tree, lo, f.block.addr - 1)
  {
    if l.Fork? {
      RightmostSpaced(l, lo, b.addr, 1);
      RemoveRightmost(l, lo, b.addr, 1, false);
      DropMaxKeepsHeap(l);
      DropMaxPlain(l);
      if Rightmost(l).block.End() < b.addr {
        SpacedWiden(l, lo, Rightmost(l).block.End(), 1, lo, b.addr - 1, 1);
        assert FuseLeft(l, b).tree == l;
      } else {
        assert FuseLeft(l, b).tree == RemoveBst(l, Rightmost(l).block.addr, false).rest;
        PlainSum(Rightmost(l).block, b);
      }
    }
  }

  lemma FuseRightLaws(r: Tree, hi: int, b: Block)
    requires FreeTreap(r, b.End(), hi) && Plain(b) && b.End() <= hi && b.size > 0
    ensures var f := FuseRight(r, b);
      && f.block.addr == b.addr && b.End() <= f.block.End() <= hi && Plain(f.block)
      && FreeTreap(f.tree, f.block.End() + 1, hi)
  {
    if r.Fork? {
      LeftmostSpaced(r, b.End(), hi, 1);
      RemoveLeftmost(r, b.End(), hi, 1, false);
      DropMinKeepsHeap(r);
      DropMinPlain(r);
      if b.End() < Leftmost(r).block.addr {
        SpacedWiden(r, Leftmost(r).block.addr, hi, 1, b.End() + 1, hi, 1);
        assert FuseRight(r, b).tree == r;
      } else {
        assert FuseRight(r, b).tree == RemoveBst(r, Leftmost(r).block.addr, false).rest;
        PlainSum(b, Leftmost(r).block);
      }
    }
  }

  lemma FuseLeftCovers(l: Tree, lo: int, b: Block, x: nat)
    requires Spaced(l, lo, b.addr, 1)
    ensures var f := FuseLeft(l, b);
      Covers(f.tree, x) || f.block.Within(x) <==> Covers(l, x) || b.Within(x)
  {
    if l.Fork? {
      RemoveRightmost(l, lo, b.addr, 1, false);
      DropMaxCovers(l, x);
    }
  }

  lemma FuseRightCovers(r: Tree, hi: int, b: Block, x: nat)
    requires Spaced(r, b.End(), hi, 1)
    ensures var f := FuseRight(r, b);
      Covers(f.tree, x) || f.block.Within(x) <==> Covers(r, x) || b.Within(x)
  {
    if r.Fork? {
      RemoveLeftmost(r, b.End(), hi, 1, false);
      DropMinCovers(r, x);
    }
  }

  /**
   Inserting a leaf keeps address order and heap order and leaves no two
   touching blocks, although fusing changes keys and priorities and removes
   nodes with the search-tree routine.
   */
  lemma InsertTreapKeepsOrder(t: Tree, lo: int, hi: int, n: TreeNode, b: Block)
    requires FreeTreap(t, lo, hi) && Clear(t, b)
    requires Plain(b) && b.size > 0 && lo <= b.addr && b.End() <= hi
    ensures FreeTreap(InsertTreap(t, n, b).tree, lo, hi)
  {
    var p := Split(t, b.addr);
    SplitFree(t, lo, hi, b);
    FuseLeftLaws(p.left, lo, b);
    var l := FuseLeft(p.left, b);
    FuseRightLaws(p.right, hi, l.block);
    var r := FuseRight(p.right, l.block);
    var leaf := Fork(n, r.block, Empty, Empty);
    MergeFree(l.tree, leaf, lo, r.block.addr - 1, r.block.End());
    MergeFree(Merge(l.tree, leaf), r.tree, lo, r.block.End(), hi);
  }

  /** The bytes covered afterwards are the old ones and those of the new block. */
  lemma InsertTreapCovers(t: Tree, lo: int, hi: int, n: TreeNode, b: Block, x: nat)
    requires Spaced(t, lo, hi, 1) && Clear(t, b) && b.size > 0
    ensures Covers(InsertTreap(t, n, b).tree, x) <==> Covers(t, x) || b.Within(x)
  {
    var p := Split(t, b.addr);
    SplitSpaced(t, lo, hi, 1, b.addr, b.addr, b.End());
    SplitCovers(t, b.addr, x);
    FuseLeftCovers(p.left, lo, b, x);
    var l := FuseLeft(p.left, b);
    assert l.block.End() == b.End();
    FuseRightCovers(p.right, hi, l.block, x);
    var r := FuseRight(p.right, l.block);
    var leaf := Fork(n, r.block, Empty, Empty);
    MergeCovers(l.tree, leaf, x);
    MergeCovers(Merge(l.tree, leaf), r.tree, x);
  }

  /** A block that touches no free block is inserted as it is, and no node is given back. */
  lemma InsertTreapAlone(t: Tree, lo: int, hi: int, n: TreeNode, b: Block)
    requires Spaced(t, lo, hi, 1) && b.size > 0 && Avoids(t, b.addr - 1, b.End() + 1)
    ensures InsertTreap(t, n, b).freed == []
    ensures Blocks(InsertTreap(t, n, b).tree) == Blocks(t) + {b}
  {
    NoFusion(t, lo, hi, b);
    var p := Split(t, b.addr);
    var leaf := Fork(n, b, Empty, Empty);
    SplitBlocks(t, b.addr);
    JoinBlocks(p.left, leaf, p.right);
  }

  lemma NoFusion(t: Tree, lo: int, hi: int, b: Block)
    requires Spaced(t, lo, hi, 1) && b.size > 0 && Avoids(t, b.addr - 1, b.End() + 1)
    ensures var p := Split(t, b.addr);
      FuseLeft(p.left, b) == Fusion(p.left, b, []) && FuseRight(p.right, b) == Fusion(p.right, b, [])
  {
    var p := Split(t, b.addr);
    SplitSpaced(t, lo, hi, 1, b.addr, b.addr - 1, b.End() + 1);
    if p.left.Fork? { RightmostSpaced(p.left, lo, b.addr - 1, 1); }
    if p.right.Fork? { LeftmostSpaced(p.right, b.End() + 1, hi, 1); }
  }

  lemma JoinBlocks(l: Tree, leaf: Tree, r: Tree)
    ensures Blocks(Merge(Merge(l, leaf), r)) == Blocks(l) + Blocks(leaf) + Blocks(r)
  {
    MergeBlocks(l, leaf);
    MergeBlocks(Merge(l, leaf), r);
  }
}
