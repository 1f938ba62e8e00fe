/**
 The large-object allocator as an object: the two tree roots and the list of
 spare nodes (large-allocator.c), the coalescing insertion (treap.c) and the
 sweep of the occupied tree (binary-search-tree.c, sweep.c).
 */
module LargeHeap {
  import opened Sequences
  import opened Config
  import opened BlockTrees
  import opened TreapLaws
  import opened SearchLaws
  import opened SweepLaws
  import opened LargeRuns
  import opened LargeShape
  import opened TreeCells
  import opened TreeHeap
  import Stale = StaleChildren

  /** The list of spare nodes, linked through `right`. */
  ghost predicate IsPool(p: TreeNode?, s: seq<TreeNode>)
    reads Elems(s)
  {
    if s == [] then p == null
    else p == s[0] && !s[0].block.isMarked && IsPool(s[0].right, s[1..])
  }

  method MakeSpareNodes(count: nat) returns (head: TreeNode?, ghost spare: seq<TreeNode>)
    ensures |spare| == count && NoRepeats(spare) && fresh(Elems(spare)) && IsPool(head, spare)
  {
    head, spare := null, [];
    var i := 0;
    while i < count
      invariant i <= count && |spare| == i && NoRepeats(spare) && fresh(Elems(spare)) && IsPool(head, spare)
    {
      var n := new TreeNode(Block(0, 0, false), head);
      ElemsConcat([n], spare);
      assert Elems([n]) == {n} && ([n] + spare)[1..] == spare;
      head, spare, i := n, [n] + spare, i + 1;
    }
  }

  class LargeAllocator {
    var freeRoot: TreeNode?
    var occupiedRoot: TreeNode?
    var poolHead: TreeNode?

    ghost var free: Tree
    ghost var occupied: Tree
    ghost var pool: seq<TreeNode>

    /** Every node of TREENODES_LIST. */
    ghost const nodes: set<TreeNode>
    const start: nat
    const end: nat

    /** `__init_large_allocator`: one free block over the whole heap, the other nodes in the pool. */
    constructor (start: nat, end: nat, count: nat)
      requires 0 < start < end && start % 8 == 0 && end % 8 == 0 && count > 0
      ensures Valid() && fresh(nodes) && this.start == start && this.end == end
      ensures freeRoot != null && State() == Initial(freeRoot, pool, start, end)
      ensures |nodes| == count == 1 + |pool|
    {
      ghost var spare;
      var head;
      head, spare := MakeSpareNodes(count - 1);
      var root := new TreeNode(Block(start, end - start, false), null);
      InitialInv(root, spare, start, end);
      CountIsElems(spare);
      this.start, this.end := start, end;
      freeRoot, occupiedRoot, poolHead := root, null, head;
      free, occupied, pool := Fork(root, Block(start, end - start, false), Empty, Empty), Empty, spare;
      nodes := {root} + Elems(spare);
      new;
    }

    ghost function State(): Large
      reads this
    {
      Large(free, occupied, pool)
    }

    /** The free treap and the pool are laid out as the ghost state says. */
    ghost predicate FreeSide()
      reads this, nodes
    {
      && Nodes(free) <= nodes && Elems(pool) <= nodes && Separate(free) && NoRepeats(pool) && Nodes(free) !! Elems(pool)
      && IsTree(freeRoot, free) && IsPool(poolHead, pool)
    }

    ghost predicate Valid()
      reads this, nodes
    {
      && start > 0
      && Inv(State(), start, end, nodes)
      && FreeSide()
      && IsTree(occupiedRoot, occupied)
    }

    /** Everything else in `Valid`, when the occupied pointers may be wrong. */
    ghost predicate ValidButOccupied()
      reads this, nodes
    {
      start > 0 && Inv(State(), start, end, nodes) && FreeSide()
    }

    // ----- The node pool -----

    method GetNewTreeNode() returns (n: TreeNode?)
      requires IsPool(poolHead, pool) && NoRepeats(pool) && Elems(pool) <= nodes
      modifies this`poolHead, this`pool, Elems(pool)
      ensures IsPool(poolHead, pool)
      ensures old(pool) == [] ==> n == null && pool == []
      ensures old(pool) != [] ==> n == old(pool)[0] && pool == old(pool)[1..] && IsLeaf(n) && !n.block.isMarked
    {
      if poolHead == null {
        n := null;
      } else {
        n := poolHead;
        PopNode(pool);
        assert pool[0] in Elems(pool);
        poolHead := n.right;
        pool := pool[1..];
        n.left, n.right := null, null;
      }
    }

    method FreeTreeNode(n: TreeNode)
      requires n in nodes && n !in pool && IsPool(poolHead, pool) && Elems(pool) <= nodes
      modifies this`poolHead, this`pool, n
      ensures pool == [n] + old(pool) && IsPool(poolHead, pool)
    {
      n.block := Block(0, 0, false);
      n.left := null;
      n.right := poolHead;
      poolHead := n;
      assert ([n] + pool)[1..] == pool;
      pool := [n] + pool;
    }

    // ----- insert_treap -----

    /** Absorbs the block before `node`, if it touches; `l` holds the blocks before `node`. */
    method FuseWithLeft(l: TreeNode?, node: TreeNode, ghost tl: Tree) returns (q: TreeNode?)
      requires IsTree(l, tl) && Separate(tl) && Nodes(tl) <= nodes
      requires node in nodes && node !in Nodes(tl)
      requires IsPool(poolHead, pool) && Elems(pool) <= nodes && Elems(pool) !! Nodes(tl) && node !in Elems(pool)
      modifies this`poolHead, this`pool, Nodes(tl), node
      ensures IsTree(q, FuseLeft(tl, old(node.block)).tree)
      ensures node.block == FuseLeft(tl, old(node.block)).block
      ensures node.left == old(node.left) && node.right == old(node.right)
      ensures pool == FuseLeft(tl, old(node.block)).freed + old(pool) && IsPool(poolHead, pool)
    {
      q := l;
      var neighbor := FindRightmost(l, tl);
      if neighbor != null && neighbor.block.addr + neighbor.block.size == node.block.addr {
        ghost var last := Rightmost(tl).block;
        node.block := Block(neighbor.block.addr, node.block.size + neighbor.block.size, node.block.isMarked);
        RemoveBstNodes(tl, last.addr, false);
        var removed;
        q, removed := RemoveFromBst(l, neighbor.block.addr, false, tl, nodes);
        if removed != null { FreeTreeNode(removed); }
      }
    }

    /** Absorbs the block after `node`, if it touches; `r` holds the blocks after `node`. */
    method FuseWithRight(r: TreeNode?, node: TreeNode, ghost tr: Tree) returns (q: TreeNode?)
      requires IsTree(r, tr) && Separate(tr) && Nodes(tr) <= nodes
      requires node in nodes && node !in Nodes(tr)
      requires IsPool(poolHead, pool) && Elems(pool) <= nodes && Elems(pool) !! Nodes(tr) && node !in Elems(pool)
      modifies this`poolHead, this`pool, Nodes(tr), node
      ensures IsTree(q, FuseRight(tr, old(node.block)).tree)
      ensures node.block == FuseRight(tr, old(node.block)).block
      ensures node.left == old(node.left) && node.right == old(node.right)
      ensures pool == FuseRight(tr, old(node.block)).freed + old(pool) && IsPool(poolHead, pool)
    {
      q := r;
      var neighbor := FindLeftmost(r, tr);
      if neighbor != null && node.block.addr + node.block.size == neighbor.block.addr {
        ghost var first := Leftmost(tr).block;
        node.block := Block(node.block.addr, node.block.size + neighbor.block.size, node.block.isMarked);
        RemoveBstNodes(tr, first.addr, false);
        var removed;
        q, removed := RemoveFromBst(r, neighbor.block.addr, false, tr, nodes);
        if removed != null { FreeTreeNode(removed); }
      }
    }

    /**
     Merges the two parts around `node`, which is a leaf or still has for children
     the very roots it is merged with.
     */
    method JoinAround(l: TreeNode?, node: TreeNode, r: TreeNode?, ghost tl: Tree, ghost tr: Tree) returns (q: TreeNode?)
      requires IsTree(l, tl) && IsTree(r, tr) && Separate(tl) && Separate(tr) && Nodes(tl) !! Nodes(tr)
      requires node !in Nodes(tl) && node !in Nodes(tr) && (IsLeaf(node) || IsStale(node, tl, tr))
      modifies Nodes(tl) + Nodes(tr) + {node}
      ensures old(IsLeaf(node)) ==> IsTree(q, Merge(Merge(tl, Fork(node, old(node.block), Empty, Empty)), tr))
      ensures !old(IsLeaf(node)) ==> Stale.Broken(q, Nodes(tl) + Nodes(tr) + {node})
    {
      ghost var all, fuel := Nodes(tl) + Nodes(tr) + {node}, 2 * (Count(tl) + Count(tr)) + 2;
      ghost var h, b := Snapshot(all), node.block;
      LaidIsTree(l, tl, all);
      LaidIsTree(r, tr, all);
      if IsLeaf(node) {
        Stale.JoinedLeaf(h, l, node, r, tl, tr, fuel);
      } else {
        assert Stale.Parts(h, node, tl, tr) && h[node].left == l && h[node].right == r;
        Stale.BothMergesReturn(h, node, tl, tr, fuel);
        Stale.JoinedIsStuck(h, node, tl, tr, fuel);
      }
      var m := MergeTreap(l, node, all, fuel);
      q := MergeTreap(m, r, all, fuel);
      JoinNodes(tl, node, b, tr);
      LaidIsTree(q, Merge(Merge(tl, Fork(node, b, Empty, Empty)), tr), all);
    }

    /** Absorbs both neighbours of `node`. */
    method FuseWithBoth(l: TreeNode?, node: TreeNode, r: TreeNode?, ghost tl: Tree, ghost tr: Tree)
      returns (l': TreeNode?, r': TreeNode?)
      requires IsTree(l, tl) && IsTree(r, tr) && Separate(tl) && Separate(tr) && Nodes(tl) !! Nodes(tr)
      requires Nodes(tl) <= nodes && Nodes(tr) <= nodes
      requires node in nodes && node !in Nodes(tl) && node !in Nodes(tr)
      requires IsPool(poolHead, pool) && Elems(pool) <= nodes && node !in Elems(pool)
      requires Elems(pool) !! Nodes(tl) && Elems(pool) !! Nodes(tr)
      modifies this`poolHead, this`pool, Nodes(tl), Nodes(tr), node
      ensures var fl := FuseLeft(tl, old(node.block));
        var fr := FuseRight(tr, fl.block);
        && IsTree(l', fl.tree) && IsTree(r', fr.tree) && node.block == fr.block
        && pool == fr.freed + (fl.freed + old(pool)) && IsPool(poolHead, pool)
      ensures node.left == old(node.left) && node.right == old(node.right)
    {
      ghost var b := node.block;
      l' := FuseWithLeft(l, node, tl);
      ghost var fl := FuseLeft(tl, b);
      FuseSets(tl, tr, fl, pool, old(pool), node, b);
      r' := FuseWithRight(r, node, tr);
      FuseRightNodes(tr, fl.block);
    }

    /**
     `insert_treap`.  It takes `node` for a leaf; when that is not so, but its
     children are the roots of the two halves and it touches neither, what comes
     out is no tree.
     */
    method InsertIntoTreap(root: TreeNode?, node: TreeNode, ghost t: Tree) returns (q: TreeNode?)
      requires IsTree(root, t) && Separate(t) && Nodes(t) <= nodes
      requires node in nodes && node !in Nodes(t) && (IsLeaf(node) || IsStaleIn(node, t))
      requires IsPool(poolHead, pool) && Elems(pool) <= nodes && Elems(pool) !! Nodes(t) && node !in Elems(pool)
      modifies this`poolHead, this`pool, Nodes(t), node
      ensures old(IsLeaf(node)) ==> IsTree(q, InsertTreap(t, node, old(node.block)).tree)
      ensures !old(IsLeaf(node)) ==> Stale.Broken(q, Nodes(t) + {node})
      ensures pool == InsertTreap(t, node, old(node.block)).freed + old(pool) && IsPool(poolHead, pool)
    {
      ghost var b := node.block;
      ghost var p := Split(t, b.addr);
      SplitNodes(t, b.addr);
      var l, r := SplitTreap(root, node.block.addr, t, nodes);
      q := FuseAndJoin(l, node, r, p.left, p.right);
    }

    /** The rest of it, once the treap is split. */
    method FuseAndJoin(l: TreeNode?, node: TreeNode, r: TreeNode?, ghost tl: Tree, ghost tr: Tree) returns (q: TreeNode?)
      requires IsTree(l, tl) && IsTree(r, tr) && Separate(tl) && Separate(tr) && Nodes(tl) !! Nodes(tr)
      requires Nodes(tl) <= nodes && Nodes(tr) <= nodes
      requires node in nodes && node !in Nodes(tl) && node !in Nodes(tr) && (IsLeaf(node) || IsStale(node, tl, tr))
      requires IsPool(poolHead, pool) && Elems(pool) <= nodes && node !in Elems(pool)
      requires Elems(pool) !! Nodes(tl) && Elems(pool) !! Nodes(tr)
      modifies this`poolHead, this`pool, Nodes(tl), Nodes(tr), node
      ensures
        var fl := FuseLeft(tl, old(node.block));
        var fr := FuseRight(tr, fl.block);
        && (old(IsLeaf(node)) ==> IsTree(q, Merge(Merge(fl.tree, Fork(node, fr.block, Empty, Empty)), fr.tree)))
        && pool == (fr.freed + fl.freed) + old(pool)
      ensures !old(IsLeaf(node)) ==> Stale.Broken(q, Nodes(tl) + Nodes(tr) + {node})
      ensures IsPool(poolHead, pool)
    {
      ghost var b := node.block;
      var l', r' := FuseWithBoth(l, node, r, tl, tr);
      ghost var fl := FuseLeft(tl, b);
      ghost var fr := FuseRight(tr, fl.block);
      InsertSets(tl, tr, fl, fr, pool, old(pool), b);
      q := JoinAround(l', node, r', fl.tree, fr.tree);
    }

    /** The children of `node` are the roots of `l` and `r`, next to which it lies without touching them. */
    ghost predicate IsStale(node: TreeNode, l: Tree, r: Tree)
      reads node
    {
      && node.left == RootOf(l) && node.right == RootOf(r)
      && (l.Fork? ==> l.block.size <= node.block.size) && (r.Fork? ==> r.block.size <= node.block.size)
      && FuseLeft(l, node.block) == Fusion(l, node.block, []) && FuseRight(r, node.block) == Fusion(r, node.block, [])
    }

    ghost predicate IsStaleIn(node: TreeNode, t: Tree)
      reads node
    {
      IsStale(node, Split(t, node.block.addr).left, Split(t, node.block.addr).right)
    }

    // ----- allocate_large_object -----

    /** Inserts `node` into the occupied tree, with whatever hangs below it. */
    method Occupy(node: TreeNode)
      requires IsTree(occupiedRoot, occupied) && Separate(occupied) && Nodes(occupied) <= nodes
      requires node in nodes && node !in Nodes(occupied)
      modifies this`occupiedRoot, this`occupied, Nodes(occupied)
      ensures occupied == InsertBst(old(occupied), node, node.block)
      ensures IsTree(occupiedRoot, occupied) <==> IsLeaf(node)
      ensures IsTreeTo(occupiedRoot, occupied, node)
    {
      InsertBstNodes(occupied, node, node.block);
      occupiedRoot := InsertIntoBst(occupiedRoot, node, occupied, nodes);
      occupied := InsertBst(occupied, node, node.block);
      if IsTree(occupiedRoot, occupied) { InsertedIsLeaf(occupiedRoot, old(occupied), node, node.block); }
    }

    /** The free treap becomes `t` with `node` inserted. */
    method Release(root: TreeNode?, node: TreeNode, ghost t: Tree)
      requires IsTree(root, t) && Separate(t) && Nodes(t) <= nodes
      requires node in nodes && node !in Nodes(t) && (IsLeaf(node) || IsStaleIn(node, t))
      requires IsPool(poolHead, pool) && Elems(pool) <= nodes && Elems(pool) !! Nodes(t) && node !in Elems(pool)
      modifies this`freeRoot, this`free, this`poolHead, this`pool, Nodes(t), node
      ensures free == InsertTreap(t, node, old(node.block)).tree
      ensures IsTree(freeRoot, free) <==> old(IsLeaf(node))
      ensures !old(IsLeaf(node)) ==> Stale.Broken(freeRoot, Nodes(t) + {node})
      ensures pool == InsertTreap(t, node, old(node.block)).freed + old(pool) && IsPool(poolHead, pool)
    {
      ghost var tree := InsertTreap(t, node, node.block).tree;
      var q := InsertOrSpoil(root, node, t);
      freeRoot, free := q, tree;
    }

    /** `insert_treap` once more: the free structure is the inserted treap exactly when `node` was a leaf. */
    method InsertOrSpoil(root: TreeNode?, node: TreeNode, ghost t: Tree) returns (q: TreeNode?)
      requires IsTree(root, t) && Separate(t) && Nodes(t) <= nodes
      requires node in nodes && node !in Nodes(t) && (IsLeaf(node) || IsStaleIn(node, t))
      requires IsPool(poolHead, pool) && Elems(pool) <= nodes && Elems(pool) !! Nodes(t) && node !in Elems(pool)
      modifies this`poolHead, this`pool, Nodes(t), node
      ensures IsTree(q, InsertTreap(t, node, old(node.block)).tree) <==> old(IsLeaf(node))
      ensures !old(IsLeaf(node)) ==> Stale.Broken(q, Nodes(t) + {node})
      ensures pool == InsertTreap(t, node, old(node.block)).freed + old(pool) && IsPool(poolHead, pool)
      ensures Nodes(InsertTreap(t, node, old(node.block)).tree) <= nodes && Elems(pool) <= nodes
    {
      ghost var tree := InsertTreap(t, node, node.block).tree;
      InsertTreapNodes(t, node, node.block);
      ElemsConcat(InsertTreap(t, node, node.block).freed, pool);
      q := InsertIntoTreap(root, node, t);
      if !old(IsLeaf(node)) { Stale.BrokenIsNoTree(q, Nodes(t) + {node}, tree); }
    }

    /** The root of the free treap leaves it; `root` is what remains. */
    method TakeFit(detach: bool) returns (fit: TreeNode, root: TreeNode?)
      requires IsTree(freeRoot, free) && free.Fork? && Separate(free) && Nodes(free) <= nodes
      modifies Nodes(free)
      ensures fit == free.node && fit.block == free.block
      ensures IsTree(root, Merge(free.left, free.right))
      ensures detach ==> IsLeaf(fit)
      ensures !detach ==> fit.left == RootOf(free.left) && fit.right == RootOf(free.right)
    {
      var removed;
      MergeNodes(free.left, free.right);
      root, removed := RemoveFromTreap(freeRoot, freeRoot.block.addr, free, nodes);
      fit := removed;
      if detach { fit.left, fit.right := null, null; }
    }

    ghost function Rest(): Tree
      requires free.Fork?
      reads this
    {
      Merge(free.left, free.right)
    }

    /** The nodes of the parts that are handled one by one below. */
    ghost predicate Parts(fit: TreeNode, rest: Tree)
      reads this
    {
      && fit in nodes && fit !in Nodes(rest) && fit !in Nodes(occupied) && fit !in Elems(pool)
      && Nodes(rest) <= nodes && Nodes(occupied) <= nodes && Elems(pool) <= nodes
      && Separate(rest) && Separate(occupied) && NoRepeats(pool)
      && Nodes(rest) !! Nodes(occupied) && Nodes(rest) !! Elems(pool) && Nodes(occupied) !! Elems(pool)
    }

    lemma TakenParts()
      requires Owned(occupied, free, pool, nodes) && free.Fork?
      ensures Parts(free.node, Rest())
    {
      MergeNodes(free.left, free.right);
    }

    /** Between taking the free root out and deciding what to do with it. */
    ghost predicate Taken(fit: TreeNode, root: TreeNode?)
      reads this, nodes
    {
      && free.Fork? && Parts(fit, Rest())
      && fit == free.node && fit.block == free.block
      && IsTree(root, Rest()) && IsTree(occupiedRoot, occupied) && IsPool(poolHead, pool)
    }

    method GiveWhole(fit: TreeNode, root: TreeNode?)
      requires Taken(fit, root)
      modifies this`freeRoot, this`occupiedRoot, this`free, this`occupied, nodes
      ensures IsTree(freeRoot, free) && IsPool(poolHead, pool)
      ensures State() == Large(old(Rest()), InsertBst(old(occupied), fit, old(free.block)), old(pool))
      ensures IsTree(occupiedRoot, occupied) <==> old(IsLeaf(fit))
      ensures IsTreeTo(occupiedRoot, occupied, fit) && fit.left == old(fit.left) && fit.right == old(fit.right)
    {
      ghost var rest := Rest();
      InsertBstNodes(occupied, fit, fit.block);
      Occupy(fit);
      freeRoot, free := root, rest;
    }

    /** A fresh node takes over what `fit` has beyond `size` bytes. */
    method SplitFit(fit: TreeNode, root: TreeNode?, size: nat) returns (node: TreeNode)
      requires Taken(fit, root) && pool != [] && size <= fit.block.size
      modifies this`poolHead, this`pool, Elems(pool), fit
      ensures node == old(pool)[0] && pool == old(pool)[1..] && IsPool(poolHead, pool)
      ensures node.block == Remainder(old(free.block), size) && IsLeaf(node)
      ensures fit.block == old(fit.block).(size := size) && fit.left == old(fit.left) && fit.right == old(fit.right)
      ensures IsTree(root, Rest()) && IsTree(occupiedRoot, occupied)
      ensures Parts(fit, Rest()) && Parts(node, Rest()) && node != fit
    {
      PopNode(pool);
      assert pool[0] in Elems(pool);
      node := GetNewTreeNode();
      node.block := Block(fit.block.addr + size, fit.block.size - size, node.block.isMarked);
      fit.block := fit.block.(size := size);
    }

    /** The first `size` bytes of the fit are occupied; `node` holds the rest. */
    method OccupyPart(fit: TreeNode, root: TreeNode?, size: nat) returns (node: TreeNode)
      requires Taken(fit, root) && pool != [] && size <= fit.block.size
      modifies this`occupiedRoot, this`poolHead, this`occupied, this`pool, nodes
      ensures node == old(pool)[0] && pool == old(pool)[1..] && IsPool(poolHead, pool)
      ensures node.block == Remainder(old(free.block), size) && IsLeaf(node)
      ensures IsTree(root, Rest()) && Parts(node, Rest())
      ensures occupied == InsertBst(old(occupied), fit, old(free.block).(size := size))
      ensures IsTree(occupiedRoot, occupied) <==> old(IsLeaf(fit))
      ensures IsTreeTo(occupiedRoot, occupied, fit) && fit.left == old(fit.left) && fit.right == old(fit.right)
    {
      node := SplitFit(fit, root, size);
      InsertBstNodes(occupied, fit, fit.block);
      Occupy(fit);
    }

    /** `Release` leaves the occupied side as it was. */
    method ReleaseApart(root: TreeNode?, node: TreeNode, ghost t: Tree)
      requires Parts(node, t) && IsTree(root, t) && (IsLeaf(node) || IsStaleIn(node, t)) && IsPool(poolHead, pool)
      modifies this`freeRoot, this`free, this`poolHead, this`pool, Nodes(t), node
      ensures free == InsertTreap(t, node, old(node.block)).tree
      ensures IsTree(freeRoot, free) <==> old(IsLeaf(node))
      ensures !old(IsLeaf(node)) ==> Stale.Broken(freeRoot, Nodes(t) + {node})
      ensures pool == InsertTreap(t, node, old(node.block)).freed + old(pool) && IsPool(poolHead, pool)
      ensures IsTree(occupiedRoot, occupied) == old(IsTree(occupiedRoot, occupied))
    {
      Release(root, node, t);
    }

    method GivePart(fit: TreeNode, root: TreeNode?, size: nat)
      requires Taken(fit, root) && pool != [] && size <= fit.block.size
      modifies this`freeRoot, this`occupiedRoot, this`poolHead, this`free, this`occupied, this`pool, nodes
      ensures IsTree(freeRoot, free) && IsPool(poolHead, pool)
      ensures
        var b := old(free.block);
        var ins := InsertTreap(old(Rest()), old(pool)[0], Remainder(b, size));
        State() == Large(ins.tree, InsertBst(old(occupied), fit, b.(size := size)), ins.freed + old(pool)[1..])
      ensures IsTree(occupiedRoot, occupied) <==> old(IsLeaf(fit))
      ensures IsTreeTo(occupiedRoot, occupied, fit) && fit.left == old(fit.left) && fit.right == old(fit.right)
    {
      var node := OccupyPart(fit, root, size);
      ReleaseApart(root, node, Rest());
    }

    /** No node is left for the remainder: the fit goes back into the free treap. */
    method ReturnFit(fit: TreeNode, root: TreeNode?)
      requires Taken(fit, root) && (IsLeaf(fit) || IsStaleIn(fit, Rest()))
      modifies this`freeRoot, this`poolHead, this`free, this`pool, nodes
      ensures IsPool(poolHead, pool) && IsTree(occupiedRoot, occupied)
      ensures IsTree(freeRoot, free) <==> old(IsLeaf(fit))
      ensures !old(IsLeaf(fit)) ==> Stale.Broken(freeRoot, Nodes(old(free)))
      ensures
        var ins := InsertTreap(old(Rest()), fit, old(free.block));
        State() == Large(ins.tree, old(occupied), ins.freed + old(pool))
    {
      MergeNodes(free.left, free.right);
      assert Nodes(Rest()) + {fit} == Nodes(free);
      ReleaseApart(root, fit, Rest());
    }

    /** The root just removed, its old children still on it, next to the rest of a free treap. */
    lemma RemovedIsStale(fit: TreeNode)
      requires FreeTreap(free, start, end) && free.Fork? && fit.block == free.block
      requires fit.left == RootOf(free.left) && fit.right == RootOf(free.right)
      ensures IsStaleIn(fit, Rest())
    {
      Stale.SplitOfRest(free.block, free.left, free.right, start, end);
      Stale.NoNeighbour(free.block, free.left, free.right, start, end);
    }

    /** What one allocation does to the pointers and the ghost state; order and tiling follow by AllocateKeepsInv. */
    method AllocateNodes(size: nat, detach: bool) returns (res: nat)
      requires Owned(occupied, free, pool, nodes) && FreeTreap(free, start, end) && 0 < size && size % 8 == 0
      requires IsTree(freeRoot, free) && IsTree(occupiedRoot, occupied) && IsPool(poolHead, pool)
      modifies this`freeRoot, this`occupiedRoot, this`poolHead, this`free, this`occupied, this`pool, nodes
      ensures IsPool(poolHead, pool)
      ensures State() == Allocate(old(State()), size).state
      ensures res == Result(Allocate(old(State()), size).result)
      ensures IsTree(freeRoot, free) <==> detach || !old(GoesBack(size)) || old(Childless())
      ensures IsTree(occupiedRoot, occupied) <==>
        detach || !old(RootFits(size)) || old(GoesBack(size)) || old(Childless())
      ensures !detach && old(GoesBack(size)) && !old(Childless()) ==> Stale.Broken(freeRoot, Nodes(old(free)))
      ensures !detach && old(RootFits(size)) && !old(GoesBack(size)) && !old(Childless()) ==> Misfiled(old(free))
    {
      if freeRoot == null || freeRoot.block.size < size { return 0; }
      TakenParts();
      var fit, root := TakeFit(detach);
      if !detach { RemovedIsStale(fit); }
      res := PlaceFit(fit, root, size);
    }

    /** What becomes of the root once it is taken out. */
    method PlaceFit(fit: TreeNode, root: TreeNode?, size: nat) returns (res: nat)
      requires Taken(fit, root) && 0 < size <= fit.block.size && size % 8 == 0
      requires IsLeaf(fit) || IsStaleIn(fit, Rest())
      modifies this`freeRoot, this`occupiedRoot, this`poolHead, this`free, this`occupied, this`pool, nodes
      ensures IsPool(poolHead, pool)
      ensures State() == Allocate(old(State()), size).state
      ensures res == Result(Allocate(old(State()), size).result)
      ensures IsTree(freeRoot, free) <==> !old(GoesBack(size)) || old(IsLeaf(fit))
      ensures IsTree(occupiedRoot, occupied) <==> old(GoesBack(size)) || old(IsLeaf(fit))
      ensures old(GoesBack(size)) && !old(IsLeaf(fit)) ==> Stale.Broken(freeRoot, Nodes(old(free)))
      ensures !old(GoesBack(size)) ==>
        && fit in Nodes(occupied) && IsTreeTo(occupiedRoot, occupied, fit)
        && fit.left == old(fit.left) && fit.right == old(fit.right)
    {
      AllocateCases(State(), size);
      res := fit.block.addr;
      if fit.block.size == size {
        InsertBstNodes(occupied, fit, fit.block);
        GiveWhole(fit, root);
      } else if poolHead == null {
        ReturnFit(fit, root);
        res := 0;
      } else {
        InsertBstNodes(occupied, fit, fit.block.(size := size));
        GivePart(fit, root, size);
      }
    }

    /** The root of the free treap `t` is filed in the occupied structure with its old children. */
    ghost predicate Misfiled(t: Tree)
      requires t.Fork?
      reads this, Nodes(occupied), t.node
    {
      && t.node in Nodes(occupied) && IsTreeTo(occupiedRoot, occupied, t.node)
      && t.node.left == RootOf(t.left) && t.node.right == RootOf(t.right)
    }

    /** The pointers lay out the state `s`, and it is in order. */
    ghost predicate Holds(s: Large)
      reads this, Nodes(s.free), Nodes(s.occupied), Elems(s.pool)
    {
      Inv(s, start, end, nodes) && IsTree(freeRoot, s.free) && IsTree(occupiedRoot, s.occupied) && IsPool(poolHead, s.pool)
    }

    /** A node that is filed and still leads into the free treap fits no state at all. */
    lemma MisfiledHoldsNothing(t: Tree, s: Large)
      requires t.Fork? && Misfiled(t) && IsTree(freeRoot, free) && (t.left.Fork? || t.right.Fork?)
      requires Nodes(t.left) + Nodes(t.right) <= Nodes(free)
      ensures !Holds(s)
    {
      if IsTree(freeRoot, s.free) && IsTree(occupiedRoot, s.occupied) {
        OneTree(freeRoot, free, s.free);
        HoldsNode(occupiedRoot, occupied, t.node, s.occupied);
        HoldsChildren(occupiedRoot, s.occupied, t.node);
        assert t.left.Fork? ==> t.left.node in Nodes(s.free) && t.left.node in Nodes(s.occupied);
        assert t.right.Fork? ==> t.right.node in Nodes(s.free) && t.right.node in Nodes(s.occupied);
      }
    }

    /** `first_fit_search` finds the root of the free treap. */
    ghost predicate RootFits(size: nat)
      reads this
    {
      free.Fork? && free.block.size >= size
    }

    /** It is too large and there is no node for the remainder. */
    ghost predicate GoesBack(size: nat)
      reads this
    {
      free.Fork? && free.block.size > size && pool == []
    }

    ghost predicate Childless()
      reads this
    {
      free.Fork? && free.left.Empty? && free.right.Empty?
    }

    /**
     `detach` is the repair: the node taken out of the treap drops its old child
     pointers.  As written it keeps them, and then the call leaves the allocator
     in order exactly when no block was large enough or the free root had no
     children.  Otherwise it is the occupied tree that is spoilt, or the free one
     when the root went back for want of a node.
     */
    method AllocateLargeObject(objectSize: nat, detach: bool) returns (res: nat)
      requires Valid() && objectSize > 0
      modifies this`freeRoot, this`occupiedRoot, this`poolHead, this`free, this`occupied, this`pool, nodes
      ensures State() == Allocate(old(State()), objectSize).state && Inv(State(), start, end, nodes)
      ensures res == Result(Allocate(old(State()), objectSize).result)
      ensures Valid() <==> detach || !old(RootFits(Align(objectSize))) || old(Childless())
      ensures Valid() || forall s: Large :: !Holds(s)
      ensures ValidButOccupied() <==> detach || !old(GoesBack(Align(objectSize))) || old(Childless())
    {
      ghost var before, size := State(), Align(objectSize);
      AllocateKeepsInv(before, start, end, nodes, objectSize);
      AllocatedInside(before, start, end, nodes, objectSize);
      res := AllocateNodes(Align(objectSize), detach);
      if !detach && old(RootFits(size)) && !old(Childless()) {
        if !old(GoesBack(size)) { ChildrenStayFree(before, start, end, nodes, size); }
        forall s: Large ensures !Holds(s) {
          if old(GoesBack(size)) {
            Stale.BrokenIsNoTree(freeRoot, Nodes(before.free), s.free);
          } else {
            MisfiledHoldsNothing(before.free, s);
          }
        }
      }
    }

    // ----- Sweep -----

    /**
     `cleanup_bst` on the subtree `t`, whose nodes, those of the free treap and
     those of the pool are together `own`.
     */
    method CleanupBst(root: TreeNode?, ghost t: Tree, repaired: bool, ghost own: set<TreeNode>) returns (q: TreeNode?)
      requires Owned(t, free, pool, own) && own <= nodes
      requires IsTree(root, t) && IsTree(freeRoot, free) && IsPool(poolHead, pool)
      modifies this`freeRoot, this`free, this`poolHead, this`pool, own
      ensures var s := Cleanup(t, old(free), old(pool), repaired);
        IsTree(q, s.occupied) && free == s.free && pool == s.pool
      ensures IsTree(freeRoot, free) && IsPool(poolHead, pool)
      decreases t, 2
    {
      if root == null { return null; }
      ghost var m := CleanupChildren(root, t, repaired, own);
      if root.block.isMarked {
        root.block := root.block.(isMarked := false);
        q := root;
      } else {
        q := FreeRoot(root, m, repaired, own);
      }
    }

    /** Both subtrees of `root` are swept, the left one first; `m` is the tree left standing. */
    method CleanupChildren(root: TreeNode, ghost t: Tree, repaired: bool, ghost own: set<TreeNode>) returns (ghost m: Tree)
      requires t.Fork? && Owned(t, free, pool, own) && own <= nodes
      requires IsTree(root, t) && IsTree(freeRoot, free) && IsPool(poolHead, pool)
      modifies this`freeRoot, this`free, this`poolHead, this`pool, own
      ensures
        var s1 := Cleanup(t.left, old(free), old(pool), repaired);
        var s2 := Cleanup(t.right, s1.free, s1.pool, repaired);
        m == Fork(t.node, t.block, s1.occupied, s2.occupied) && free == s2.free && pool == s2.pool
      ensures Owned(m, free, pool, own)
      ensures IsTree(root, m) && IsTree(freeRoot, free) && IsPool(poolHead, pool)
      decreases t, 1
    {
      ghost var l' := CleanupLeft(root, t, repaired, own);
      ghost var r' := CleanupRight(root, t.right, l', repaired, own - {root} - Nodes(l'));
      m := Fork(t.node, t.block, l', r');
      OwnedRoot(t.node, t.block, l', r', free, pool, own);
    }

    method CleanupRight(root: TreeNode, ghost r: Tree, ghost l': Tree, repaired: bool, ghost own: set<TreeNode>)
      returns (ghost r': Tree)
      requires Owned(r, free, pool, own) && own <= nodes && root in nodes && root !in own
      requires Nodes(l') <= nodes && Nodes(l') !! own && root !in Nodes(l')
      requires IsTree(root.left, l') && IsTree(root.right, r) && IsTree(freeRoot, free) && IsPool(poolHead, pool)
      modifies this`freeRoot, this`free, this`poolHead, this`pool, own, root`right
      ensures
        var s2 := Cleanup(r, old(free), old(pool), repaired);
        r' == s2.occupied && free == s2.free && pool == s2.pool
      ensures root.block == old(root.block) && IsTree(root.left, l') && IsTree(root.right, r')
      ensures Owned(r', free, pool, own)
      ensures IsTree(freeRoot, free) && IsPool(poolHead, pool)
      decreases r, 3
    {
      CleanupKeepsNodes(r, free, pool, repaired, own);
      r' := Cleanup(r, free, pool, repaired).occupied;
      var x := CleanupBst(root.right, r, repaired, own);
      root.right := x;
    }

    method CleanupLeft(root: TreeNode, ghost t: Tree, repaired: bool, ghost own: set<TreeNode>) returns (ghost l': Tree)
      requires t.Fork? && Owned(t, free, pool, own) && own <= nodes
      requires IsTree(root, t) && IsTree(freeRoot, free) && IsPool(poolHead, pool)
      modifies this`freeRoot, this`free, this`poolHead, this`pool, own
      ensures
        var s1 := Cleanup(t.left, old(free), old(pool), repaired);
        l' == s1.occupied && free == s1.free && pool == s1.pool
      ensures root == t.node && root.block == t.block && IsTree(root.left, l') && IsTree(root.right, t.right)
      ensures Separate(l') && Nodes(l') <= own && root in own && root !in Nodes(l') && root !in Nodes(t.right)
      ensures Nodes(l') !! Nodes(t.right)
      ensures Owned(t.right, free, pool, own - {root} - Nodes(l'))
      ensures IsTree(freeRoot, free) && IsPool(poolHead, pool)
      decreases t, 0
    {
      ghost var own1 := own - {t.node} - Nodes(t.right);
      OwnedLeft(t, free, pool, own);
      CleanupKeepsNodes(t.left, free, pool, repaired, own1);
      l' := Cleanup(t.left, free, pool, repaired).occupied;
      var l := CleanupBst(root.left, t.left, repaired, own1);
      OwnedRight(t, l', free, pool, own);
      AttachLeft(root, l, l', t.right);
    }

    /** The swept left subtree is linked again, apart from everything else. */
    method AttachLeft(root: TreeNode, l: TreeNode?, ghost l': Tree, ghost r: Tree)
      requires IsTree(l, l') && IsTree(root.right, r) && IsTree(freeRoot, free) && IsPool(poolHead, pool)
      requires root !in Nodes(l') && root !in Nodes(r) && root !in Nodes(free) && root !in Elems(pool)
      requires Nodes(l') + Nodes(r) + Nodes(free) + Elems(pool) <= nodes
      modifies root`left
      ensures IsTree(root.left, l') && IsTree(root.right, r) && IsTree(freeRoot, free) && IsPool(poolHead, pool)
    {
      root.left := l;
    }

    /** Moves the root of `m` to the free treap. */
    method FreeRoot(root: TreeNode, ghost m: Tree, repaired: bool, ghost own: set<TreeNode>) returns (q: TreeNode?)
      requires m.Fork? && Owned(m, free, pool, own) && own <= nodes
      requires IsTree(root, m) && IsTree(freeRoot, free) && IsPool(poolHead, pool)
      modifies this`freeRoot, this`free, this`poolHead, this`pool, own
      ensures
        var rm := RemoveBst(m, m.block.addr, repaired);
        var ins := InsertTreap(old(free), rm.out.value.node, rm.out.value.block);
        IsTree(q, rm.rest) && free == ins.tree && pool == ins.freed + old(pool)
      ensures IsTree(freeRoot, free) && IsPool(poolHead, pool)
    {
      RemoveRootNodes(m, repaired);
      var removed;
      q, removed := RemoveFromBst(root, root.block.addr, repaired, m, nodes);
      Release(freeRoot, removed, free);
    }

    /** What the sweep does to the pointers and the ghost state. */
    method SweepNodes(repaired: bool)
      requires Owned(occupied, free, pool, nodes)
      requires IsTree(freeRoot, free) && IsTree(occupiedRoot, occupied) && IsPool(poolHead, pool)
      modifies this`freeRoot, this`occupiedRoot, this`poolHead, this`free, this`occupied, this`pool, nodes
      ensures State() == SweepWith(old(State()), repaired)
      ensures IsTree(freeRoot, free) && IsTree(occupiedRoot, occupied) && IsPool(poolHead, pool)
    {
      if occupiedRoot == null { return; }
      CleanupKeepsNodes(occupied, free, pool, repaired, nodes);
      ghost var s := Cleanup(occupied, free, pool, repaired);
      var q := CleanupBst(occupiedRoot, occupied, repaired, nodes);
      occupiedRoot, occupied := q, s.occupied;
    }

    /** `sweep_large_heap`; with `repaired` false the code as written. */
    method SweepLargeHeap(repaired: bool)
      requires Valid()
      modifies this`freeRoot, this`occupiedRoot, this`poolHead, this`free, this`occupied, this`pool, nodes
      ensures State() == SweepWith(old(State()), repaired)
      ensures Valid() <==> repaired || !Straddled(old(occupied))
    {
      SweepKeepsInvIff(State(), repaired, start, end, nodes);
      SweepNodes(repaired);
    }

    /** The occupied structure alone, as marking needs it. */
    ghost predicate OccupiedOk()
      reads this, nodes
    {
      Nodes(occupied) <= nodes && Separate(occupied) && IsTree(occupiedRoot, occupied)
    }

    /** `mark_object` on a large-heap object. */
    method MarkLarge(a: nat)
      requires OccupiedOk()
      modifies this`occupied, Nodes(occupied)
      ensures OccupiedOk() && occupied == SetMark(old(occupied), a) && Nodes(occupied) == old(Nodes(occupied))
    {
      var n := SearchNode(occupiedRoot, occupied, a);
      SetMarkNodes(occupied, a);
      if n != null {
        ghost var h := Snapshot(nodes);
        LaidIsTree(occupiedRoot, occupied, nodes);
        n.block := n.block.(isMarked := true);
        MarkLaid(h, Snapshot(nodes), occupiedRoot, occupied, a);
        occupied := SetMark(occupied, a);
        LaidIsTree(occupiedRoot, occupied, nodes);
      } else {
        NothingToMark(occupied, a);
      }
    }
  }

  /** The pointer to a tree. */
  function RootOf(t: Tree): TreeNode? { if t.Fork? then t.node else null }

  /** NULL is address 0. */
  function Result(r: Option<nat>): nat { if r.Some? then r.value else 0 }

  /** An address handed out is never NULL, and rounding a size twice is rounding it once. */
  lemma AllocatedInside(s: Large, lo: nat, hi: nat, all: set<TreeNode>, objectSize: nat)
    requires Inv(s, lo, hi, all) && lo > 0
    ensures Allocate(s, objectSize) == Allocate(s, Align(objectSize))
    ensures Allocate(s, objectSize).result.Some? ==> Allocate(s, objectSize).result.value >= lo
  {
  }

  lemma {:induction false} SetMarkNodes(t: Tree, a: nat)
    ensures Nodes(SetMark(t, a)) == Nodes(t) && Separate(SetMark(t, a)) == Separate(t)
  {
    if t.Fork? { SetMarkNodes(t.left, a); SetMarkNodes(t.right, a); }
  }

  lemma {:induction false} NothingToMark(t: Tree, a: nat)
    requires SearchBst(t, a).None?
    ensures SetMark(t, a) == t
  {
    if t.Fork? { if a < t.block.addr { NothingToMark(t.left, a); } else { NothingToMark(t.right, a); } }
  }

  lemma {:induction false} MarkLaid(h: map<TreeNode, Cell>, h': map<TreeNode, Cell>, p: TreeNode?, t: Tree, a: nat)
    requires Laid(h, p, t) && Separate(t) && SearchBst(t, a).Some? && h.Keys == h'.Keys
    requires SearchBst(t, a).value.node in h
    requires forall n :: n in h && n != SearchBst(t, a).value.node ==> h'[n] == h[n]
    requires var n := SearchBst(t, a).value.node; h'[n] == h[n].(block := h[n].block.(isMarked := true))
    ensures Laid(h', p, SetMark(t, a))
    decreases t
  {
    SearchInside(t, a);
    SearchInside(t.left, a);
    SearchInside(t.right, a);
    if a < t.block.addr {
      MarkLaid(h, h', h[t.node].left, t.left, a);
      LaidFrame(h, h', h[t.node].right, t.right);
    } else if a > t.block.addr {
      MarkLaid(h, h', h[t.node].right, t.right, a);
      LaidFrame(h, h', h[t.node].left, t.left);
    } else {
      LaidFrame(h, h', h[t.node].left, t.left);
      LaidFrame(h, h', h[t.node].right, t.right);
    }
  }

  lemma {:induction false} SearchInside(t: Tree, a: nat)
    ensures SearchBst(t, a).Some? ==> SearchBst(t, a).value.node in Nodes(t)
  {
    if t.Fork? { SearchInside(t.left, a); SearchInside(t.right, a); }
  }

  lemma {:induction false} InsertedIsLeaf(p: TreeNode?, t: Tree, n: TreeNode, b: Block)
    requires IsTree(p, InsertBst(t, n, b))
    ensures IsLeaf(n)
    decreases t
  {
    if t.Fork? {
      if b.addr < t.block.addr { InsertedIsLeaf(p.left, t.left, n, b); } else { InsertedIsLeaf(p.right, t.right, n, b); }
    }
  }

  lemma InsertSets(l: Tree, r: Tree, fl: Fusion, fr: Fusion, p: seq<TreeNode>, q: seq<TreeNode>, b: Block)
    requires Separate(l) && Separate(r) && Nodes(l) !! Nodes(r)
    requires fl == FuseLeft(l, b) && fr == FuseRight(r, fl.block)
    requires p == fr.freed + (fl.freed + q) && Elems(q) !! Nodes(l) && Elems(q) !! Nodes(r)
    ensures p == (fr.freed + fl.freed) + q
    ensures Separate(fl.tree) && Separate(fr.tree) && Nodes(fl.tree) <= Nodes(l) && Nodes(fr.tree) <= Nodes(r)
    ensures Elems(p) !! Nodes(fl.tree) && Elems(p) !! Nodes(fr.tree)
    ensures Elems(p) <= Nodes(l) + Nodes(r) + Elems(q)
  {
    FuseLeftNodes(l, b);
    FuseRightNodes(r, fl.block);
    ElemsConcat(fl.freed, q);
    ElemsConcat(fr.freed, fl.freed + q);
  }

  /** After fusing on the left the right part is still clear of everything touched. */
  lemma FuseSets(l: Tree, r: Tree, f: Fusion, p: seq<TreeNode>, q: seq<TreeNode>, n: TreeNode, b: Block)
    requires Separate(l) && Nodes(l) !! Nodes(r) && f == FuseLeft(l, b) && p == f.freed + q
    requires n !in Nodes(l) && n !in Elems(q) && Elems(q) !! Nodes(l) && Elems(q) !! Nodes(r)
    ensures Separate(f.tree) && Nodes(f.tree) <= Nodes(l) && Elems(p) <= Nodes(l) + Elems(q)
    ensures Elems(p) !! Nodes(r) && n !in Elems(p) && Nodes(f.tree) !! Elems(p)
  {
    FuseLeftNodes(l, b);
    ElemsConcat(f.freed, q);
  }
}
