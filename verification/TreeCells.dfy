/**
 The pointer structure as data: what every node holds in one state of the heap,
 when that is a tree, and `merge_treap` (treap.c) on it, tree or not.
 */
module TreeCells {
  import opened BlockTrees
  import opened TreapLaws

  /** The pointer `p` is the root of a structure laid out like `t`. */
  ghost predicate IsTree(p: TreeNode?, t: Tree)
    reads Nodes(t)
  {
    match t
    case Empty => p == null
    case Fork(n, b, l, r) => p == n && n.block == b && IsTree(n.left, l) && IsTree(n.right, r)
  }

  /** The same, whatever hangs below node `n`. */
  ghost predicate IsTreeTo(p: TreeNode?, t: Tree, n: TreeNode)
    reads Nodes(t)
  {
    match t
    case Empty => p == null
    case Fork(m, b, l, r) => p == m && m.block == b && (m == n || (IsTreeTo(m.left, l, n) && IsTreeTo(m.right, r, n)))
  }

  lemma {:induction false} TreeIsTreeTo(p: TreeNode?, t: Tree, n: TreeNode)
    requires IsTree(p, t)
    ensures IsTreeTo(p, t, n)
  {
    if t.Fork? && p != n {
      TreeIsTreeTo(p.left, t.left, n);
      TreeIsTreeTo(p.right, t.right, n);
    }
  }

  /** Whatever tree is laid out there holds `n`. */
  lemma {:induction false} HoldsNode(p: TreeNode?, t: Tree, n: TreeNode, u: Tree)
    requires IsTreeTo(p, t, n) && n in Nodes(t) && IsTree(p, u)
    ensures n in Nodes(u)
    decreases t
  {
    if p != n {
      if n in Nodes(t.left) { HoldsNode(p.left, t.left, n, u.left); } else { HoldsNode(p.right, t.right, n, u.right); }
    }
  }

  /** And with a node it holds what the node points to. */
  lemma {:induction false} HoldsChildren(p: TreeNode?, u: Tree, n: TreeNode)
    requires IsTree(p, u) && n in Nodes(u)
    ensures n.left != null ==> n.left in Nodes(u)
    ensures n.right != null ==> n.right in Nodes(u)
    decreases u
  {
    if p != n {
      if n in Nodes(u.left) { HoldsChildren(p.left, u.left, n); } else { HoldsChildren(p.right, u.right, n); }
    }
  }

  lemma {:induction false} OneTree(p: TreeNode?, t: Tree, u: Tree)
    requires IsTree(p, t) && IsTree(p, u)
    ensures t == u
    decreases t
  {
    if t.Fork? {
      OneTree(p.left, t.left, u.left);
      OneTree(p.right, t.right, u.right);
    }
  }

  /** What a node holds in one state of the heap. */
  datatype Cell = Cell(block: Block, left: TreeNode?, right: TreeNode?)

  type Store = map<TreeNode, Cell>

  ghost function Snapshot(all: set<TreeNode>): Store
    reads all
  {
    map n | n in all :: Cell(n.block, n.left, n.right)
  }

  /** `IsTree` in the state recorded by `h`. */
  ghost predicate Laid(h: Store, p: TreeNode?, t: Tree) {
    match t
    case Empty => p == null
    case Fork(n, b, l, r) =>
      p == n && n in h && h[n].block == b && Laid(h, h[n].left, l) && Laid(h, h[n].right, r)
  }

  lemma {:induction false} LaidIsTree(p: TreeNode?, t: Tree, all: set<TreeNode>)
    requires Nodes(t) <= all
    ensures Laid(Snapshot(all), p, t) <==> IsTree(p, t)
    decreases t
  {
    if t.Fork? && p == t.node {
      LaidIsTree(p.left, t.left, all);
      LaidIsTree(p.right, t.right, all);
    }
  }

  lemma {:induction false} LaidFrame(h: Store, h': Store, p: TreeNode?, t: Tree)
    requires Laid(h, p, t)
    requires forall n :: n in Nodes(t) && n in h ==> n in h' && h'[n] == h[n]
    ensures Laid(h', p, t)
    decreases t
  {
    if t.Fork? {
      LaidFrame(h, h', h[t.node].left, t.left);
      LaidFrame(h, h', h[t.node].right, t.right);
    }
  }

  /** A store and the pointer an operation returns. */
  datatype Outcome = Outcome(store: Store, root: TreeNode?)

  ghost function SetLeft(h: Store, n: TreeNode, p: TreeNode?): Store
    requires n in h
  {
    h[n := h[n].(left := p)]
  }

  ghost function SetRight(h: Store, n: TreeNode, p: TreeNode?): Store
    requires n in h
  {
    h[n := h[n].(right := p)]
  }

  // ----- merge_treap -----

  /** `merge_treap`, pointer by pointer; None when `fuel` nested calls are not enough. */
  ghost function MergeCells(h: Store, l: TreeNode?, r: TreeNode?, fuel: nat): (m: Option<Outcome>)
    ensures m.Some? ==> m.value.store.Keys == h.Keys
  {
    if l == null || r == null then Some(Outcome(h, if l != null then l else r))
    else if fuel == 0 || l !in h || r !in h then None
    else if h[l].block.size > h[r].block.size then
      var m := MergeCells(h, h[l].right, r, fuel - 1);
      if m.None? then None else Some(Outcome(SetRight(m.value.store, l, m.value.root), l))
    else
      var m := MergeCells(h, l, h[r].left, fuel - 1);
      if m.None? then None else Some(Outcome(SetLeft(m.value.store, r, m.value.root), r))
  }

  /** The calls go down before anything is written, so merging returns even when the two trees share nodes. */
  lemma {:induction false} MergeReturns(h: Store, l: TreeNode?, r: TreeNode?, tl: Tree, tr: Tree, fuel: nat)
    requires Laid(h, l, tl) && Laid(h, r, tr) && fuel >= Count(tl) + Count(tr)
    ensures MergeCells(h, l, r, fuel).Some?
    decreases fuel
  {
    if l != null && r != null {
      if h[l].block.size > h[r].block.size {
        MergeReturns(h, h[l].right, r, tl.right, tr, fuel - 1);
      } else {
        MergeReturns(h, l, h[r].left, tl, tr.left, fuel - 1);
      }
    }
  }

  ghost predicate SameOutside(h: Store, h': Store, nodes: set<TreeNode>) {
    h'.Keys == h.Keys && forall n :: n in h && n !in nodes ==> h'[n] == h[n]
  }

  lemma {:induction false} MergeLaid(h: Store, l: TreeNode?, r: TreeNode?, tl: Tree, tr: Tree, fuel: nat)
    requires Laid(h, l, tl) && Laid(h, r, tr) && Separate(tl) && Separate(tr) && Nodes(tl) !! Nodes(tr)
    requires MergeCells(h, l, r, fuel).Some?
    ensures var m := MergeCells(h, l, r, fuel).value;
      Laid(m.store, m.root, Merge(tl, tr)) && SameOutside(h, m.store, Nodes(tl) + Nodes(tr))
    decreases fuel
  {
    if l != null && r != null {
      if h[l].block.size > h[r].block.size {
        MergeLaid(h, h[l].right, r, tl.right, tr, fuel - 1);
        MergeNodes(tl.right, tr);
        var m := MergeCells(h, h[l].right, r, fuel - 1).value;
        var h' := SetRight(m.store, l, m.root);
        LaidFrame(m.store, h', m.root, Merge(tl.right, tr));
        LaidFrame(h, h', h[l].left, tl.left);
      } else {
        MergeLaid(h, l, h[r].left, tl, tr.left, fuel - 1);
        MergeNodes(tl, tr.left);
        var m := MergeCells(h, l, h[r].left, fuel - 1).value;
        var h' := SetLeft(m.store, r, m.root);
        LaidFrame(m.store, h', m.root, Merge(tl, tr.left));
        LaidFrame(h, h', h[r].right, tr.right);
      }
    }
  }
}
