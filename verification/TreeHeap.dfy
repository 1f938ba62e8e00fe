/**
 The tree operations on the pointer structure (treap.c and
 binary-search-tree.c).  Each method changes nodes in place and is proved to
 turn a structure that represents a tree value into one that represents the
 result of the operation of BlockTrees.dfy on that value.
 */
module TreeHeap {
  import opened BlockTrees
  import opened TreapLaws
  import opened SearchLaws
  import opened TreeCells

  predicate IsLeaf(n: TreeNode)
    reads n
  {
    n.left == null && n.right == null
  }

  // ----- treap.c -----

  method SplitTreap(p: TreeNode?, a: nat, ghost t: Tree, ghost all: set<TreeNode>) returns (l: TreeNode?, r: TreeNode?)
    requires IsTree(p, t) && Separate(t) && Nodes(t) <= all
    modifies Nodes(t)
    ensures IsTree(l, Split(t, a).left) && IsTree(r, Split(t, a).right)
    decreases t
  {
    if p == null {
      l, r := null, null;
    } else if a < p.block.addr {
      SplitNodes(t.left, a);
      var x;
      l, x := SplitTreap(p.left, a, t.left, all);
      p.left := x;
      r := p;
    } else {
      SplitNodes(t.right, a);
      var x;
      x, r := SplitTreap(p.right, a, t.right, all);
      p.right := x;
      l := p;
    }
  }

  /** `merge_treap` on whatever the two pointers lead to, as long as its calls return within `fuel`. */
  method MergeTreap(l: TreeNode?, r: TreeNode?, ghost all: set<TreeNode>, ghost fuel: nat) returns (m: TreeNode?)
    requires MergeCells(Snapshot(all), l, r, fuel).Some?
    modifies all
    ensures Outcome(Snapshot(all), m) == MergeCells(old(Snapshot(all)), l, r, fuel).value
    decreases fuel
  {
    if l == null || r == null {
      m := if l != null then l else r;
    } else if l.block.size > r.block.size {
      var x := MergeTreap(l.right, r, all, fuel - 1);
      l.right := x;
      m := l;
    } else {
      var x := MergeTreap(l, r.left, all, fuel - 1);
      r.left := x;
      m := r;
    }
  }

  /** On two trees it returns, and lays out the merged tree. */
  method MergeTrees(l: TreeNode?, r: TreeNode?, ghost tl: Tree, ghost tr: Tree, ghost all: set<TreeNode>)
    returns (m: TreeNode?)
    requires Nodes(tl) <= all && Nodes(tr) <= all
    requires IsTree(l, tl) && IsTree(r, tr) && Separate(tl) && Separate(tr) && Nodes(tl) !! Nodes(tr)
    modifies Nodes(tl) + Nodes(tr)
    ensures IsTree(m, Merge(tl, tr))
  {
    ghost var both, fuel := Nodes(tl) + Nodes(tr), Count(tl) + Count(tr);
    LaidIsTree(l, tl, both);
    LaidIsTree(r, tr, both);
    MergeReturns(Snapshot(both), l, r, tl, tr, fuel);
    MergeLaid(Snapshot(both), l, r, tl, tr, fuel);
    MergeNodes(tl, tr);
    m := MergeTreap(l, r, both, fuel);
    LaidIsTree(m, Merge(tl, tr), both);
  }

  method FindRightmost(p: TreeNode?, ghost t: Tree) returns (n: TreeNode?)
    requires IsTree(p, t)
    ensures t.Empty? ==> n == null
    ensures t.Fork? ==> n == Rightmost(t).node && n in Nodes(t) && n.block == Rightmost(t).block
  {
    n := p;
    if n == null { return; }
    ghost var cur := t;
    while n.right != null
      invariant cur.Fork? && IsTree(n, cur) && Rightmost(cur) == Rightmost(t) && Nodes(cur) <= Nodes(t)
      decreases cur
    {
      n, cur := n.right, cur.right;
    }
  }

  method FindLeftmost(p: TreeNode?, ghost t: Tree) returns (n: TreeNode?)
    requires IsTree(p, t)
    ensures t.Empty? ==> n == null
    ensures t.Fork? ==> n == Leftmost(t).node && n in Nodes(t) && n.block == Leftmost(t).block
  {
    n := p;
    if n == null { return; }
    ghost var cur := t;
    while n.left != null
      invariant cur.Fork? && IsTree(n, cur) && Leftmost(cur) == Leftmost(t) && Nodes(cur) <= Nodes(t)
      decreases cur
    {
      n, cur := n.left, cur.left;
    }
  }

  /** The node removed keeps its two child pointers, as the code has it. */
  method RemoveFromTreap(p: TreeNode?, a: nat, ghost t: Tree, ghost all: set<TreeNode>)
    returns (q: TreeNode?, removed: TreeNode?)
    requires IsTree(p, t) && Separate(t) && Nodes(t) <= all
    modifies Nodes(t)
    ensures IsTree(q, RemoveTreap(t, a).rest)
    ensures RemoveTreap(t, a).out.None? ==> removed == null
    ensures RemoveTreap(t, a).out.Some? ==>
      && removed == RemoveTreap(t, a).out.value.node && removed in all && removed in Nodes(t)
      && removed.block == RemoveTreap(t, a).out.value.block
      && removed.left == old(removed.left) && removed.right == old(removed.right)
    decreases t
  {
    RemoveTreapNodes(t, a);
    if p == null {
      q, removed := null, null;
    } else if p.block.addr == a {
      removed := p;
      q := MergeTrees(p.left, p.right, t.left, t.right, all);
    } else if a < p.block.addr {
      var x;
      RemoveTreapNodes(t.left, a);
      x, removed := RemoveFromTreap(p.left, a, t.left, all);
      p.left := x;
      q := p;
    } else {
      var x;
      RemoveTreapNodes(t.right, a);
      x, removed := RemoveFromTreap(p.right, a, t.right, all);
      p.right := x;
      q := p;
    }
  }

  lemma {:induction false} RemoveTreapNodes(t: Tree, a: nat)
    requires Separate(t)
    ensures var rm := RemoveTreap(t, a);
      && Separate(rm.rest)
      && (rm.out.None? ==> rm.rest == t)
      && (rm.out.Some? ==> rm.out.value.node !in Nodes(rm.rest) && Nodes(rm.rest) + {rm.out.value.node} == Nodes(t))
  {
    if t.Fork? {
      if a == t.block.addr {
        MergeNodes(t.left, t.right);
      } else if a < t.block.addr {
        RemoveTreapNodes(t.left, a);
      } else {
        RemoveTreapNodes(t.right, a);
      }
    }
  }

  // ----- binary-search-tree.c -----

  /** Attaches `node`; what hangs below it afterwards is whatever it carries. */
  method InsertIntoBst(p: TreeNode?, node: TreeNode, ghost t: Tree, ghost all: set<TreeNode>) returns (q: TreeNode?)
    requires IsTree(p, t) && Separate(t) && node !in Nodes(t) && Nodes(t) <= all && node in all
    modifies Nodes(t)
    ensures q != null
    ensures IsLeaf(node) ==> IsTree(q, InsertBst(t, node, node.block))
    ensures IsTreeTo(q, InsertBst(t, node, node.block), node)
    decreases t
  {
    if p == null {
      q := node;
    } else {
      if node.block.addr < p.block.addr {
        InsertBstNodes(t.left, node, node.block);
        TreeIsTreeTo(p.right, t.right, node);
        var x := InsertIntoBst(p.left, node, t.left, all);
        p.left := x;
      } else {
        InsertBstNodes(t.right, node, node.block);
        TreeIsTreeTo(p.left, t.left, node);
        var x := InsertIntoBst(p.right, node, t.right, all);
        p.right := x;
      }
      q := p;
    }
  }

  function SearchNode(p: TreeNode?, ghost t: Tree, a: nat): (n: TreeNode?)
    requires IsTree(p, t)
    reads Nodes(t)
    ensures n == null <==> SearchBst(t, a).None?
    ensures n != null ==> n in Nodes(t) && SearchBst(t, a) == Some(Detached(n, n.block))
    decreases t
  {
    if p == null then null
    else if a == p.block.addr then p
    else if a < p.block.addr then SearchNode(p.left, t.left, a)
    else SearchNode(p.right, t.right, a)
  }

  function ExtSearchNode(p: TreeNode?, ghost t: Tree, a: nat): (n: TreeNode?)
    requires IsTree(p, t)
    reads Nodes(t)
    ensures n == null <==> ExtSearchBst(t, a).None?
    ensures n != null ==> n in Nodes(t) && ExtSearchBst(t, a) == Some(Detached(n, n.block))
    decreases t
  {
    if p == null then null
    else if p.block.addr <= a < p.block.addr + p.block.size then p
    else if a < p.block.addr then ExtSearchNode(p.left, t.left, a)
    else ExtSearchNode(p.right, t.right, a)
  }

  // ----- remove_bst -----

  /** The parent of the leftmost node of a tree whose root is not leftmost itself. */
  ghost function MinParent(t: Tree): TreeNode
    requires t.Fork? && t.left.Fork?
  {
    if t.left.left.Empty? then t.node else MinParent(t.left)
  }

  /** What hangs to the right of the leftmost node. */
  ghost function MinRight(t: Tree): Tree
    requires t.Fork?
  {
    if t.left.Empty? then t.right else MinRight(t.left)
  }

  lemma {:induction false} MinInside(t: Tree)
    requires t.Fork? && Separate(t)
    ensures Leftmost(t).node in Nodes(t) && Leftmost(t).node !in Nodes(MinRight(t))
    ensures Nodes(MinRight(t)) <= Nodes(t)
    ensures t.left.Fork? ==> MinParent(t) in Nodes(t) && MinParent(t) != Leftmost(t).node && MinParent(t) !in Nodes(MinRight(t))
  {
    if t.left.Fork? { MinInside(t.left); }
  }

  /** Redirecting one pointer past the leftmost node removes it from the tree. */
  lemma {:induction false} Bypassed(h: map<TreeNode, Cell>, h': map<TreeNode, Cell>, p: TreeNode, t: Tree)
    requires Laid(h, p, t) && Separate(t) && t.Fork? && t.left.Fork?
    requires Leftmost(t).node in h && MinParent(t) in h && MinParent(t) in h'
    requires forall n :: n in Nodes(t) && n in h && n != Leftmost(t).node && n != MinParent(t) ==> n in h' && h'[n] == h[n]
    requires h'[MinParent(t)] == h[MinParent(t)].(left := h[Leftmost(t).node].right)
    ensures Laid(h', p, DropMin(t))
    decreases t
  {
    MinInside(t.left);
    LaidFrame(h, h', h[p].right, t.right);
    if t.left.left.Fork? {
      Bypassed(h, h', h[p].left, t.left);
    } else {
      LaidFrame(h, h', h[t.left.node].right, t.left.right);
    }
  }

  /** The search loop of the two-children case: the leftmost node of the right subtree and its parent. */
  method FindMin(root: TreeNode, ghost t: Tree, ghost all: set<TreeNode>) returns (min: TreeNode, parent: TreeNode)
    requires t.Fork? && IsTree(root, t) && Separate(t) && t.right.Fork? && Nodes(t) <= all
    ensures min == Leftmost(t.right).node && min in Nodes(t.right)
    ensures min.block == Leftmost(t.right).block && min.left == null
    ensures parent == if t.right.left.Empty? then root else MinParent(t.right)
    ensures t.right.left.Fork? ==> parent.left == min
  {
    parent, min := root, root.right;
    ghost var cur := t.right;
    while min.left != null
      invariant cur.Fork? && IsTree(min, cur) && Nodes(cur) <= Nodes(t.right)
      invariant Leftmost(cur) == Leftmost(t.right)
      invariant cur == t.right ==> parent == root
      invariant cur != t.right ==> t.right.left.Fork? && parent.left == min
      invariant cur != t.right ==> MinParent(t.right) == if cur.left.Fork? then MinParent(cur) else parent
      decreases cur
    {
      parent, min, cur := min, min.left, cur.left;
    }
  }

  /** Removes the root of a subtree that has at most one child. */
  method UnlinkRoot(root: TreeNode, ghost t: Tree) returns (q: TreeNode?)
    requires t.Fork? && IsTree(root, t) && Separate(t) && (t.left.Empty? || t.right.Empty?)
    modifies root
    ensures IsLeaf(root) && root.block == old(root.block)
    ensures q == (if t.left.Empty? then old(root.right) else old(root.left))
  {
    q := if root.left == null then root.right else root.left;
    root.left, root.right := null, null;
  }

  method RemoveMinOfRight(root: TreeNode, ghost t: Tree, ghost all: set<TreeNode>) returns (min: TreeNode)
    requires t.Fork? && IsTree(root, t) && Separate(t) && t.left.Fork? && t.right.Fork? && Nodes(t) <= all
    modifies Nodes(t)
    ensures min == Leftmost(t.right).node && min in all && IsLeaf(min) && min.block == Leftmost(t.right).block
    ensures root.block == Leftmost(t.right).block
    ensures IsTree(root.left, t.left) && IsTree(root.right, DropMin(t.right))
  {
    MinInside(t.right);
    var parent;
    min, parent := FindMin(root, t, all);
    ghost var h := Snapshot(all);
    LaidIsTree(root.right, t.right, all);
    LaidIsTree(root.left, t.left, all);
    root.block := min.block;
    var rest := min.right;
    min.left, min.right := null, null;
    if parent.left == min {
      parent.left := rest;
    } else {
      parent.right := rest;
    }
    ghost var h' := Snapshot(all);
    LaidFrame(h, h', root.left, t.left);
    LaidIsTree(root.left, t.left, all);
    if t.right.left.Fork? {
      Bypassed(h, h', root.right, t.right);
      DropMinNodes(t.right);
      LaidIsTree(root.right, DropMin(t.right), all);
    }
  }

  /**
   `remove_bst`.  With `repaired` the leaving node of the two-children case takes
   over the block that was asked for; without it the code is as written.
   */
  method RemoveFromBst(p: TreeNode?, a: nat, repaired: bool, ghost t: Tree, ghost all: set<TreeNode>)
    returns (q: TreeNode?, removed: TreeNode?)
    requires IsTree(p, t) && Separate(t) && Nodes(t) <= all
    modifies Nodes(t)
    ensures IsTree(q, RemoveBst(t, a, repaired).rest)
    ensures RemoveBst(t, a, repaired).out.None? ==> removed == null
    ensures RemoveBst(t, a, repaired).out.Some? ==>
      && removed == RemoveBst(t, a, repaired).out.value.node && removed in all
      && removed.block == RemoveBst(t, a, repaired).out.value.block && IsLeaf(removed)
    decreases t
  {
    if p == null {
      q, removed := null, null;
    } else if a < p.block.addr {
      RemoveBstNodes(t.left, a, repaired);
      var x;
      x, removed := RemoveFromBst(p.left, a, repaired, t.left, all);
      p.left := x;
      q := p;
    } else if a > p.block.addr {
      RemoveBstNodes(t.right, a, repaired);
      var x;
      x, removed := RemoveFromBst(p.right, a, repaired, t.right, all);
      p.right := x;
      q := p;
    } else if p.left == null || p.right == null {
      removed := p;
      q := UnlinkRoot(p, t);
    } else {
      var asked := p.block;
      var min := RemoveMinOfRight(p, t, all);
      DropMinNodes(t.right);
      if repaired { min.block := asked; }
      q, removed := p, min;
    }
  }
}
