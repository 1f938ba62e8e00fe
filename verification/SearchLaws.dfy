/**
 Laws of the occupied tree: insertion, the two searches, removal by address and
 marking (binary-search-tree.c).
 */
module SearchLaws {
  import opened Sequences
  import opened BlockTrees
  import opened TreapLaws

  predicate Aligned(b: Block) { b.addr % 8 == 0 && b.size % 8 == 0 }

  predicate AllAligned(t: Tree) { t.Fork? ==> Aligned(t.block) && AllAligned(t.left) && AllAligned(t.right) }

  // ----- Insertion -----

  lemma {:induction false} InsertBstSpaced(t: Tree, lo: int, hi: int, n: TreeNode, b: Block)
    requires Spaced(t, lo, hi, 0) && Clear(t, b) && b.size > 0 && lo <= b.addr && b.End() <= hi
    ensures Spaced(InsertBst(t, n, b), lo, hi, 0)
    ensures AllAligned(t) && Aligned(b) ==> AllAligned(InsertBst(t, n, b))
  {
    if t.Fork? {
      if b.addr < t.block.addr {
        InsertBstSpaced(t.left, lo, t.block.addr, n, b);
      } else {
        InsertBstSpaced(t.right, t.block.End(), hi, n, b);
      }
    }
  }

  lemma {:induction false} InsertBstHolds(t: Tree, n: TreeNode, b: Block)
    ensures Blocks(InsertBst(t, n, b)) == Blocks(t) + {b}
    ensures Count(InsertBst(t, n, b)) == Count(t) + 1
    ensures forall x: nat :: Covers(InsertBst(t, n, b), x) <==> Covers(t, x) || b.Within(x)
  {
    if t.Fork? {
      if b.addr < t.block.addr { InsertBstHolds(t.left, n, b); } else { InsertBstHolds(t.right, n, b); }
    }
  }

  lemma {:induction false} InsertBstNodes(t: Tree, n: TreeNode, b: Block)
    ensures Nodes(InsertBst(t, n, b)) == Nodes(t) + {n}
    ensures Separate(t) && n !in Nodes(t) ==> Separate(InsertBst(t, n, b))
  {
    if t.Fork? {
      if b.addr < t.block.addr { InsertBstNodes(t.left, n, b); } else { InsertBstNodes(t.right, n, b); }
    }
  }

  // ----- Searching -----

  lemma {:induction false} BlockBounds(t: Tree, lo: int, hi: int, gap: nat, b: Block)
    requires Spaced(t, lo, hi, gap) && b in Blocks(t)
    ensures b.size > 0 && lo <= b.addr && b.End() <= hi
  {
    if b == t.block {
    } else if b in Blocks(t.left) {
      BlockBounds(t.left, lo, t.block.addr - gap, gap, b);
    } else {
      BlockBounds(t.right, t.block.End() + gap, hi, gap, b);
    }
  }

  /**
   Interior pointers: the search along one path finds the block holding byte `a`
   exactly when some block of the tree holds it, and it is that block.
   */
  lemma {:induction false} ExtSearchFindsHolder(t: Tree, lo: int, hi: int, a: nat, b: Block)
    requires Spaced(t, lo, hi, 0)
    ensures (ExtSearchBst(t, a).Some? && ExtSearchBst(t, a).value.block == b) <==> (b in Blocks(t) && b.Within(a))
  {
    if t.Fork? {
      ExtSearchFindsHolder(t.left, lo, t.block.addr, a, b);
      ExtSearchFindsHolder(t.right, t.block.End(), hi, a, b);
      if b in Blocks(t.left) { BlockBounds(t.left, lo, t.block.addr, 0, b); }
      if b in Blocks(t.right) { BlockBounds(t.right, t.block.End(), hi, 0, b); }
    }
  }

  /** A search by start address finds the block that starts there, if there is one. */
  lemma {:induction false} SearchFindsStart(t: Tree, lo: int, hi: int, a: nat, b: Block)
    requires Spaced(t, lo, hi, 0)
    ensures (SearchBst(t, a).Some? && SearchBst(t, a).value.block == b) <==> (b in Blocks(t) && b.addr == a)
  {
    if t.Fork? {
      SearchFindsStart(t.left, lo, t.block.addr, a, b);
      SearchFindsStart(t.right, t.block.End(), hi, a, b);
      if b in Blocks(t.left) { BlockBounds(t.left, lo, t.block.addr, 0, b); }
      if b in Blocks(t.right) { BlockBounds(t.right, t.block.End(), hi, 0, b); }
    }
  }

  // ----- Removal by address -----

  /** The node that holds the block starting at `a` has two children. */
  predicate TwoChildrenAt(t: Tree, a: nat) {
    t.Fork? &&
      if a < t.block.addr then TwoChildrenAt(t.left, a)
      else if a > t.block.addr then TwoChildrenAt(t.right, a)
      else t.left.Fork? && t.right.Fork?
  }

  lemma {:induction false} DropMinBlocks(t: Tree, lo: int, hi: int, gap: nat)
    requires t.Fork? && Spaced(t, lo, hi, gap)
    ensures Leftmost(t).block in Blocks(t)
    ensures Blocks(DropMin(t)) == Blocks(t) - {Leftmost(t).block}
  {
    LeftmostSpaced(t, lo, hi, gap);
    if t.left.Fork? {
      DropMinBlocks(t.left, lo, t.block.addr - gap, gap);
      LeftmostSpaced(t.left, lo, t.block.addr - gap, gap);
      if Leftmost(t).block in Blocks(t.right) {
        BlockBounds(t.right, t.block.End() + gap, hi, gap, Leftmost(t).block);
      }
    } else {
      if t.block in Blocks(t.right) { BlockBounds(t.right, t.block.End() + gap, hi, gap, t.block); }
    }
  }

  lemma {:induction false} RemoveBstSpaced(t: Tree, lo: int, hi: int, a: nat, repaired: bool)
    requires Spaced(t, lo, hi, 0)
    ensures Spaced(RemoveBst(t, a, repaired).rest, lo, hi, 0)
  {
    if t.Fork? {
      if a < t.block.addr {
        RemoveBstSpaced(t.left, lo, t.block.addr, a, repaired);
      } else if a > t.block.addr {
        RemoveBstSpaced(t.right, t.block.End(), hi, a, repaired);
      } else {
        RemoveRootSpaced(t, lo, hi, repaired);
      }
    }
  }

  lemma RemoveRootSpaced(t: Tree, lo: int, hi: int, repaired: bool)
    requires t.Fork? && Spaced(t, lo, hi, 0)
    ensures Spaced(RemoveBst(t, t.block.addr, repaired).rest, lo, hi, 0)
  {
    var l, r := t.left, t.right;
    if l.Empty? {
      SpacedWiden(r, t.block.End(), hi, 0, lo, hi, 0);
    } else if r.Empty? {
      SpacedWiden(l, lo, t.block.addr, 0, lo, hi, 0);
    } else {
      LeftmostSpaced(r, t.block.End(), hi, 0);
      SpacedWiden(l, lo, t.block.addr, 0, lo, Leftmost(r).block.addr, 0);
    }
  }

  /** Removing the root leaves the blocks of the two subtrees. */
  lemma RemoveRootBlocks(t: Tree, lo: int, hi: int, repaired: bool)
    requires t.Fork? && Spaced(t, lo, hi, 0)
    ensures Blocks(RemoveBst(t, t.block.addr, repaired).rest) == Blocks(t.left) + Blocks(t.right)
  {
    if t.left.Fork? && t.right.Fork? { DropMinBlocks(t.right, t.block.End(), hi, 0); }
  }

  lemma RemoveRootCovers(t: Tree, repaired: bool, x: nat)
    requires t.Fork?
    ensures Covers(RemoveBst(t, t.block.addr, repaired).rest, x) <==> Covers(t.left, x) || Covers(t.right, x)
  {
    if t.left.Fork? && t.right.Fork? { DropMinCovers(t.right, x); }
  }

  lemma RemoveRootNodes(t: Tree, repaired: bool)
    requires t.Fork? && Separate(t)
    ensures var rm := RemoveBst(t, t.block.addr, repaired);
      && rm.out.Some? && Separate(rm.rest) && rm.out.value.node !in Nodes(rm.rest)
      && Nodes(rm.rest) + {rm.out.value.node} == Nodes(t)
  {
    if t.left.Fork? && t.right.Fork? { DropMinNodes(t.right); }
  }

  /** The leaving node is the only one the tree loses. */
  lemma {:induction false} RemoveBstNodes(t: Tree, a: nat, repaired: bool)
    requires Separate(t)
    ensures var rm := RemoveBst(t, a, repaired);
      && Separate(rm.rest)
      && (rm.out.None? ==> rm.rest == t)
      && (rm.out.Some? ==> rm.out.value.node !in Nodes(rm.rest) && Nodes(rm.rest) + {rm.out.value.node} == Nodes(t))
  {
    if t.Fork? {
      if a < t.block.addr {
        RemoveBstNodes(t.left, a, repaired);
      } else if a > t.block.addr {
        RemoveBstNodes(t.right, a, repaired);
      } else {
        RemoveRootNodes(t, repaired);
      }
    }
  }

  /** The tree returned by a removal is right: it loses the block at `a` and nothing else. */
  lemma {:induction false} RemoveBstRemoves(t: Tree, lo: int, hi: int, a: nat, repaired: bool)
    requires Spaced(t, lo, hi, 0)
    ensures var rm := RemoveBst(t, a, repaired);
      && rm.out.Some? == SearchBst(t, a).Some?
      && Blocks(rm.rest) == Blocks(t) - (if rm.out.Some? then {SearchBst(t, a).value.block} else {})
  {
    if t.Fork? {
      NoStrayBlocks(t, lo, hi, a);
      if a < t.block.addr {
        RemoveBstRemoves(t.left, lo, t.block.addr, a, repaired);
      } else if a > t.block.addr {
        RemoveBstRemoves(t.right, t.block.End(), hi, a, repaired);
      } else {
        RemoveRootBlocks(t, lo, hi, repaired);
      }
    }
  }

  lemma NoStrayBlocks(t: Tree, lo: int, hi: int, a: nat)
    requires t.Fork? && Spaced(t, lo, hi, 0)
    ensures t.block !in Blocks(t.left) && t.block !in Blocks(t.right)
    ensures SearchBst(t.left, a).Some? ==>
      SearchBst(t.left, a).value.block !in Blocks(t.right) && SearchBst(t.left, a).value.block != t.block
    ensures SearchBst(t.right, a).Some? ==>
      SearchBst(t.right, a).value.block !in Blocks(t.left) && SearchBst(t.right, a).value.block != t.block
  {
    forall b | b in Blocks(t.left) ensures b.End() <= t.block.addr && b.size > 0 {
      BlockBounds(t.left, lo, t.block.addr, 0, b);
    }
    forall b | b in Blocks(t.right) ensures t.block.End() <= b.addr && b.size > 0 {
      BlockBounds(t.right, t.block.End(), hi, 0, b);
    }
    if SearchBst(t.left, a).Some? { SearchFindsStart(t.left, lo, t.block.addr, a, SearchBst(t.left, a).value.block); }
    if SearchBst(t.right, a).Some? { SearchFindsStart(t.right, t.block.End(), hi, a, SearchBst(t.right, a).value.block); }
  }

  /** `c` is the block of the tree that comes next after the one starting at `a`. */
  ghost predicate IsNext(t: Tree, a: nat, c: Block) {
    c in Blocks(t) && a < c.addr && forall d :: d in Blocks(t) && a < d.addr ==> c.addr <= d.addr
  }

  lemma {:induction false} LeftmostIsFirst(t: Tree, lo: int, hi: int, d: Block)
    requires Spaced(t, lo, hi, 0) && d in Blocks(t)
    ensures Leftmost(t).block in Blocks(t) && Leftmost(t).block.addr <= d.addr
    decreases t
  {
    if d in Blocks(t.right) { BlockBounds(t.right, t.block.End(), hi, 0, d); }
    if t.left.Fork? {
      LeftmostIsFirst(t.left, lo, t.block.addr, if d in Blocks(t.left) then d else t.left.block);
      BlockBounds(t.left, lo, t.block.addr, 0, Leftmost(t.left).block);
    }
  }

  /**
   Which block leaves with the node.  As written the answer is the block asked
   for exactly when its node has at most one child; otherwise it is the next
   block by address, which the returned tree still holds.
   */
  lemma {:induction false} RemovedBlock(t: Tree, lo: int, hi: int, a: nat)
    requires Spaced(t, lo, hi, 0) && SearchBst(t, a).Some?
    ensures RemoveBst(t, a, true).out.Some? && RemoveBst(t, a, false).out.Some?
    ensures RemoveBst(t, a, true).out.value.block == SearchBst(t, a).value.block
    ensures RemoveBst(t, a, false).out.value.block == SearchBst(t, a).value.block <==> !TwoChildrenAt(t, a)
    ensures TwoChildrenAt(t, a) ==>
      var c := RemoveBst(t, a, false).out.value.block;
      IsNext(t, a, c) && c in Blocks(RemoveBst(t, a, false).rest)
    decreases t
  {
    if a < t.block.addr {
      RemovedBlock(t.left, lo, t.block.addr, a);
      if TwoChildrenAt(t, a) { NextFromLeft(t, lo, hi, a, RemoveBst(t, a, false).out.value.block); }
    } else if a > t.block.addr {
      RemovedBlock(t.right, t.block.End(), hi, a);
      if TwoChildrenAt(t, a) { NextFromRight(t, lo, hi, a, RemoveBst(t, a, false).out.value.block); }
    } else if t.left.Fork? && t.right.Fork? {
      LeftmostSpaced(t.right, t.block.End(), hi, 0);
      RootNext(t, lo, hi);
    }
  }

  lemma NextFromLeft(t: Tree, lo: int, hi: int, a: nat, c: Block)
    requires t.Fork? && Spaced(t, lo, hi, 0) && IsNext(t.left, a, c)
    ensures IsNext(t, a, c)
  {
    BlockBounds(t.left, lo, t.block.addr, 0, c);
    forall d | d in Blocks(t.right) ensures c.addr <= d.addr { BlockBounds(t.right, t.block.End(), hi, 0, d); }
  }

  lemma NextFromRight(t: Tree, lo: int, hi: int, a: nat, c: Block)
    requires t.Fork? && Spaced(t, lo, hi, 0) && IsNext(t.right, a, c) && a >= t.block.addr
    ensures IsNext(t, a, c)
  {
    forall d | d in Blocks(t.left) ensures d.addr <= a { BlockBounds(t.left, lo, t.block.addr, 0, d); }
  }

  lemma RootNext(t: Tree, lo: int, hi: int)
    requires t.Fork? && t.right.Fork? && Spaced(t, lo, hi, 0)
    ensures IsNext(t, t.block.addr, Leftmost(t.right).block)
  {
    forall d | d in Blocks(t.right) ensures Leftmost(t.right).block in Blocks(t.right) && Leftmost(t.right).block.addr <= d.addr {
      LeftmostIsFirst(t.right, t.block.End(), hi, d);
    }
    assert t.right.block in Blocks(t.right);
    BlockBounds(t.right, t.block.End(), hi, 0, Leftmost(t.right).block);
    NextFromRight(t, lo, hi, t.block.addr, Leftmost(t.right).block);
  }

  // ----- Nodes of an insertion -----

  /** The nodes given back are distinct and, with those of the tree, are all the nodes there were. */
  lemma InsertTreapNodes(t: Tree, n: TreeNode, b: Block)
    requires Separate(t) && n !in Nodes(t)
    ensures var ins := InsertTreap(t, n, b);
      && Separate(ins.tree) && n in Nodes(ins.tree)
      && NoRepeats(ins.freed)
      && Nodes(ins.tree) !! Elems(ins.freed)
      && Nodes(ins.tree) + Elems(ins.freed) == Nodes(t) + {n}
  {
    var p := Split(t, b.addr);
    SplitNodes(t, b.addr);
    FuseLeftNodes(p.left, b);
    var l := FuseLeft(p.left, b);
    FuseRightNodes(p.right, l.block);
    var r := FuseRight(p.right, l.block);
    Partition(Nodes(p.left), Nodes(p.right), Nodes(l.tree), Elems(l.freed), Nodes(r.tree), Elems(r.freed), n);
    JoinNodes(l.tree, n, r.block, r.tree);
    FreedTwo(l.freed, r.freed);
  }

  lemma Partition(l: set<TreeNode>, r: set<TreeNode>, l': set<TreeNode>, f: set<TreeNode>,
                  r': set<TreeNode>, g: set<TreeNode>, n: TreeNode)
    requires l !! r && n !in l && n !in r
    requires l' + f == l && l' !! f && r' + g == r && r' !! g
    ensures l' !! r' && f !! g && n !in l' && n !in r'
    ensures (l' + {n} + r') !! (g + f)
    ensures (l' + {n} + r') + (g + f) == (l + r) + {n}
  {
  }

  lemma JoinNodes(l: Tree, n: TreeNode, b: Block, r: Tree)
    requires Separate(l) && Separate(r) && Nodes(l) !! Nodes(r) && n !in Nodes(l) && n !in Nodes(r)
    ensures var t := Merge(Merge(l, Fork(n, b, Empty, Empty)), r);
      Separate(t) && Nodes(t) == Nodes(l) + {n} + Nodes(r)
  {
    var leaf := Fork(n, b, Empty, Empty);
    assert Nodes(leaf) == {n} && Separate(leaf);
    MergeNodes(l, leaf);
    var m := Merge(l, leaf);
    assert Separate(m) && Nodes(m) == Nodes(l) + {n};
    assert Nodes(m) !! Nodes(r);
    MergeNodes(m, r);
  }

  lemma FreedTwo(f: seq<TreeNode>, g: seq<TreeNode>)
    requires |f| <= 1 && |g| <= 1 && Elems(f) !! Elems(g)
    ensures NoRepeats(g + f) && Elems(g + f) == Elems(g) + Elems(f)
  {
    if |f| == 1 && |g| == 1 {
      assert f[0] in Elems(f) && g[0] in Elems(g);
    }
  }

  lemma FuseLeftNodes(l: Tree, b: Block)
    requires Separate(l)
    ensures var f := FuseLeft(l, b);
      && Separate(f.tree) && |f.freed| <= 1
      && Nodes(f.tree) !! Elems(f.freed) && Nodes(f.tree) + Elems(f.freed) == Nodes(l)
  {
    if l.Fork? { RemoveBstNodes(l, Rightmost(l).block.addr, false); }
  }

  lemma FuseRightNodes(r: Tree, b: Block)
    requires Separate(r)
    ensures var f := FuseRight(r, b);
      && Separate(f.tree) && |f.freed| <= 1
      && Nodes(f.tree) !! Elems(f.freed) && Nodes(f.tree) + Elems(f.freed) == Nodes(r)
  {
    if r.Fork? { RemoveBstNodes(r, Leftmost(r).block.addr, false); }
  }

  // ----- Marking -----

  /** The tree after the block starting at `a` has been marked. */
  function SetMark(t: Tree, a: nat): Tree {
    match t
    case Empty => Empty
    case Fork(n, b, l, r) =>
      if a == b.addr then Fork(n, b.(isMarked := true), l, r)
      else if a < b.addr then Fork(n, b, SetMark(l, a), r)
      else Fork(n, b, l, SetMark(r, a))
  }

  function IsMarkedAt(t: Tree, a: nat): bool {
    SearchBst(t, a).Some? && SearchBst(t, a).value.block.isMarked
  }

  lemma {:induction false} SetMarkKeepsShape(t: Tree, lo: int, hi: int, a: nat)
    requires Spaced(t, lo, hi, 0)
    ensures Spaced(SetMark(t, a), lo, hi, 0)
    ensures AllAligned(t) ==> AllAligned(SetMark(t, a))
    ensures Nodes(SetMark(t, a)) == Nodes(t) && (Separate(t) ==> Separate(SetMark(t, a)))
    ensures Count(SetMark(t, a)) == Count(t)
    ensures forall x: nat :: Covers(SetMark(t, a), x) == Covers(t, x)
  {
    if t.Fork? {
      if a < t.block.addr {
        SetMarkKeepsShape(t.left, lo, t.block.addr, a);
      } else if a > t.block.addr {
        SetMarkKeepsShape(t.right, t.block.End(), hi, a);
      }
    }
  }

  /** Marking changes the reading of one start address and no other. */
  lemma {:induction false} SetMarkMarks(t: Tree, a: nat, c: nat)
    ensures IsMarkedAt(SetMark(t, a), c) <==> IsMarkedAt(t, c) || (c == a && SearchBst(t, a).Some?)
    ensures SearchBst(SetMark(t, a), c).Some? == SearchBst(t, c).Some?
  {
    if t.Fork? {
      SetMarkMarks(t.left, a, c);
      SetMarkMarks(t.right, a, c);
    }
  }

  /** Marking never changes how an address resolves. */
  lemma {:induction false} SetMarkResolves(t: Tree, a: nat, x: nat)
    ensures ExtSearchBst(SetMark(t, a), x).Some? == ExtSearchBst(t, x).Some?
    ensures ExtSearchBst(t, x).Some? ==>
      var (b, b') := (ExtSearchBst(t, x).value.block, ExtSearchBst(SetMark(t, a), x).value.block);
      b.addr == b'.addr && b.size == b'.size
  {
    if t.Fork? {
      SetMarkResolves(t.left, a, x);
      SetMarkResolves(t.right, a, x);
    }
  }
}
