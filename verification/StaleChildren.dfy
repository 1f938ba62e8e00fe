/**
 What `remove_treap` leaves behind.  The removed root keeps its child pointers
 (treap.c); when the node pool is empty, allocate_large_object puts that root
 back with `insert_treap`, which takes it for a leaf.  The steps are followed
 here on a store of cells, because what they produce need not be a tree.
 */
module StaleChildren {
  import opened BlockTrees
  import opened TreapLaws
  import opened TreeCells

  datatype Halves = Halves(store: Store, left: TreeNode?, right: TreeNode?)

  /** `split_treap`, likewise. */
  ghost function SplitCells(h: Store, t: TreeNode?, a: nat, fuel: nat): (s: Option<Halves>)
    ensures s.Some? ==> s.value.store.Keys == h.Keys
  {
    if t == null then Some(Halves(h, null, null))
    else if fuel == 0 || t !in h then None
    else if a < h[t].block.addr then
      var s := SplitCells(h, h[t].left, a, fuel - 1);
      if s.None? then None else Some(Halves(SetLeft(s.value.store, t, s.value.right), s.value.left, t))
    else
      var s := SplitCells(h, h[t].right, a, fuel - 1);
      if s.None? then None else Some(Halves(SetRight(s.value.store, t, s.value.left), t, s.value.right))
  }

  /** `remove_treap` of the root. */
  ghost function RemoveRootCells(h: Store, root: TreeNode, fuel: nat): Option<Outcome>
    requires root in h
  {
    MergeCells(h, h[root].left, h[root].right, fuel)
  }

  /** The two merges that end `insert_treap`. */
  ghost function JoinCells(h: Store, l: TreeNode?, n: TreeNode, r: TreeNode?, fuel: nat): Option<Outcome> {
    var m := MergeCells(h, l, n, fuel);
    if m.None? then None else MergeCells(m.value.store, m.value.root, r, fuel)
  }

  /**
   The root of a free treap is removed and put back.  No two free blocks touch, so
   `insert_treap` finds no neighbour to fuse with: it splits and merges twice.
   */
  ghost function RemoveAndReinsert(h: Store, root: TreeNode, fuel: nat): Option<Outcome>
    requires root in h
  {
    var rest := RemoveRootCells(h, root, fuel);
    if rest.None? then None else
    var s := SplitCells(rest.value.store, rest.value.root, h[root].block.addr, fuel);
    if s.None? then None else JoinCells(s.value.store, s.value.left, root, s.value.right, fuel)
  }

  // ----- On trees the cells follow the tree values -----

  lemma {:induction false} SplitLaid(h: Store, p: TreeNode?, t: Tree, a: nat, fuel: nat)
    requires Laid(h, p, t) && Separate(t) && SplitCells(h, p, a, fuel).Some?
    ensures var s := SplitCells(h, p, a, fuel).value;
      && Laid(s.store, s.left, Split(t, a).left) && Laid(s.store, s.right, Split(t, a).right)
      && SameOutside(h, s.store, Nodes(t))
    decreases fuel
  {
    if p != null {
      if a < h[p].block.addr {
        SplitLaid(h, h[p].left, t.left, a, fuel - 1);
        SplitNodes(t.left, a);
        var s := SplitCells(h, h[p].left, a, fuel - 1).value;
        var h' := SetLeft(s.store, p, s.right);
        LaidFrame(s.store, h', s.left, Split(t.left, a).left);
        LaidFrame(s.store, h', s.right, Split(t.left, a).right);
        LaidFrame(h, h', h[p].right, t.right);
      } else {
        SplitLaid(h, h[p].right, t.right, a, fuel - 1);
        SplitNodes(t.right, a);
        var s := SplitCells(h, h[p].right, a, fuel - 1).value;
        var h' := SetRight(s.store, p, s.left);
        LaidFrame(s.store, h', s.left, Split(t.right, a).left);
        LaidFrame(s.store, h', s.right, Split(t.right, a).right);
        LaidFrame(h, h', h[p].left, t.left);
      }
    }
  }

  // ----- The calls return -----

  /** It returns when only the right side of the first node is a tree, too. */
  lemma {:induction false} JoinReturns(h: Store, x: TreeNode, y: TreeNode?, tx: Tree, ty: Tree, fuel: nat)
    requires x in h && Laid(h, h[x].right, tx) && Laid(h, y, ty) && fuel > Count(tx) + Count(ty)
    ensures MergeCells(h, x, y, fuel).Some?
    decreases fuel
  {
    if y != null {
      if h[x].block.size > h[y].block.size {
        MergeReturns(h, h[x].right, y, tx, ty, fuel - 1);
      } else {
        JoinReturns(h, x, h[y].left, tx, ty.left, fuel - 1);
      }
    }
  }

  lemma {:induction false} SplitReturns(h: Store, p: TreeNode?, t: Tree, a: nat, fuel: nat)
    requires Laid(h, p, t) && fuel >= Count(t)
    ensures SplitCells(h, p, a, fuel).Some?
    decreases fuel
  {
    if p != null {
      if a < h[p].block.addr { SplitReturns(h, h[p].left, t.left, a, fuel - 1); }
      else { SplitReturns(h, h[p].right, t.right, a, fuel - 1); }
    }
  }

  lemma {:induction false} MergeCount(l: Tree, r: Tree)
    ensures Count(Merge(l, r)) == Count(l) + Count(r)
    decreases l, r
  {
    if l.Fork? && r.Fork? {
      if l.block.size > r.block.size { MergeCount(l.right, r); } else { MergeCount(l, r.left); }
    }
  }

  /** Splitting undoes merging, node for node. */
  lemma {:induction false} SplitUndoesMerge(l: Tree, r: Tree, lo: int, hi: int, gap: nat, a: nat)
    requires Spaced(l, lo, a, gap) && Spaced(r, a + 1, hi, gap)
    ensures Split(Merge(l, r), a) == Pair(l, r)
    decreases l, r
  {
    if l.Fork? && r.Fork? {
      if l.block.size > r.block.size {
        SpacedWiden(l.right, l.block.End() + gap, a, gap, lo, a, gap);
        SplitUndoesMerge(l.right, r, lo, hi, gap, a);
      } else {
        SpacedWiden(r.left, a + 1, r.block.addr - gap, gap, a + 1, hi, gap);
        SplitUndoesMerge(l, r.left, lo, hi, gap, a);
      }
    } else if l.Fork? {
      SplitAbove(l, lo, gap, a);
    } else {
      SplitBelow(r, hi, gap, a);
    }
  }

  lemma {:induction false} SplitAbove(l: Tree, lo: int, gap: nat, a: nat)
    requires Spaced(l, lo, a, gap)
    ensures Split(l, a) == Pair(l, Empty)
  {
    if l.Fork? { SplitAbove(l.right, l.block.End() + gap, gap, a); }
  }

  lemma {:induction false} SplitBelow(r: Tree, hi: int, gap: nat, a: nat)
    requires Spaced(r, a + 1, hi, gap)
    ensures Split(r, a) == Pair(Empty, r)
  {
    if r.Fork? { SplitBelow(r.left, r.block.addr - gap, gap, a); }
  }

  // ----- Walking to the left -----

  /** Where `k` steps along left pointers lead. */
  ghost function Walk(h: Store, p: TreeNode?, k: nat): TreeNode? {
    if k == 0 then p else if p == null || p !in h then null else Walk(h, h[p].left, k - 1)
  }

  ghost predicate Endless(h: Store, p: TreeNode?) { forall k: nat :: Walk(h, p, k) != null }

  ghost predicate Reaches(h: Store, p: TreeNode?, x: TreeNode) { exists k: nat :: Walk(h, p, k) == x }

  lemma {:induction false} WalkOn(h: Store, p: TreeNode?, i: nat, j: nat)
    ensures Walk(h, p, i + j) == Walk(h, Walk(h, p, i), j)
    decreases i
  {
    if i > 0 {
      if p != null && p in h { WalkOn(h, h[p].left, i - 1, j); } else { assert Walk(h, null, j) == null; }
    }
  }

  /** Changing the left pointer of `y` changes no walk before it meets `y`. */
  lemma {:induction false} WalkBefore(h: Store, y: TreeNode, m: TreeNode?, p: TreeNode?, k: nat)
    requires y in h && forall i: nat :: i < k ==> Walk(h, p, i) != y
    ensures Walk(SetLeft(h, y, m), p, k) == Walk(h, p, k)
    decreases k
  {
    if k > 0 && p != null && p in h {
      assert Walk(h, p, 0) == p;
      forall i: nat | i < k - 1 ensures Walk(h, h[p].left, i) != y { assert Walk(h, p, i + 1) == Walk(h, h[p].left, i); }
      WalkBefore(h, y, m, h[p].left, k - 1);
    }
  }

  lemma {:induction false} FirstMeeting(h: Store, p: TreeNode?, y: TreeNode, k: nat) returns (j: nat)
    requires Walk(h, p, k) == y
    ensures j <= k && Walk(h, p, j) == y && forall i: nat :: i < j ==> Walk(h, p, i) != y
    decreases k
  {
    if i: nat :| i < k && Walk(h, p, i) == y { j := FirstMeeting(h, p, y, i); } else { j := k; }
  }

  /** A walk that comes back to where it started never ends. */
  lemma {:induction false} LoopIsEndless(h: Store, y: TreeNode, j: nat, k: nat)
    requires j > 0 && Walk(h, y, j) == y
    ensures Walk(h, y, k) != null
    decreases k
  {
    if k < j {
      WalkOn(h, y, k, j - k);
      assert k == j - (j - k) && Walk(h, null, j - k) == null;
    } else {
      WalkOn(h, y, j, k - j);
      LoopIsEndless(h, y, j, k - j);
    }
  }

  /** The left pointer of `y` is sent to a walk that never ends or leads back to `y`. */
  lemma RedirectLoop(h: Store, y: TreeNode, m: TreeNode?)
    requires y in h && (Reaches(h, m, y) || Endless(h, m))
    ensures Endless(SetLeft(h, y, m), y)
  {
    var h' := SetLeft(h, y, m);
    if Reaches(h, m, y) {
      var k: nat :| Walk(h, m, k) == y;
      var j := FirstMeeting(h, m, y, k);
      WalkBefore(h, y, m, m, j);
      assert Walk(h', y, j + 1) == Walk(h', m, j);
      forall n: nat ensures Walk(h', y, n) != null { LoopIsEndless(h', y, j + 1, n); }
    } else {
      forall n: nat ensures Walk(h', y, n) != null {
        if n > 0 {
          WalkBefore(h, y, m, m, n - 1);
          assert Walk(h', y, n) == Walk(h', m, n - 1);
        }
      }
    }
  }

  /** The left pointer of `y` is sent to a walk that leads to `x`. */
  lemma RedirectReach(h: Store, y: TreeNode, m: TreeNode?, x: TreeNode)
    requires y in h && Reaches(h, m, x)
    ensures Endless(SetLeft(h, y, m), y) || Reaches(SetLeft(h, y, m), y, x)
  {
    if Reaches(h, m, y) {
      RedirectLoop(h, y, m);
    } else {
      var h' := SetLeft(h, y, m);
      var k: nat :| Walk(h, m, k) == x;
      WalkBefore(h, y, m, m, k);
      assert Walk(h', y, k + 1) == x;
    }
  }

  /** No finite tree can be read off where the walk to the left never ends. */
  lemma {:induction false} EndlessIsNoTree(h: Store, p: TreeNode?, t: Tree)
    requires Endless(h, p)
    ensures !Laid(h, p, t)
    decreases t
  {
    assert Walk(h, p, 0) == p;
    if t.Fork? && p == t.node && p in h {
      forall k: nat ensures Walk(h, h[p].left, k) != null { assert Walk(h, p, k + 1) == Walk(h, h[p].left, k); }
      EndlessIsNoTree(h, h[p].left, t.left);
    }
  }

  // ----- Merging a node into itself -----

  /** What is merged in on the left stays on the walk to the left, or the walk never ends. */
  lemma {:induction false} MergedIsReached(h: Store, x: TreeNode, y: TreeNode?, fuel: nat)
    requires MergeCells(h, x, y, fuel).Some?
    ensures var m := MergeCells(h, x, y, fuel).value; Endless(m.store, m.root) || Reaches(m.store, m.root, x)
    decreases fuel
  {
    var o := MergeCells(h, x, y, fuel).value;
    if y == null || h[x].block.size > h[y].block.size {
      assert Walk(o.store, o.root, 0) == x;
    } else {
      MergedIsReached(h, x, h[y].left, fuel - 1);
      var m := MergeCells(h, x, h[y].left, fuel - 1).value;
      if Endless(m.store, m.root) { RedirectLoop(m.store, y, m.root); } else { RedirectReach(m.store, y, m.root, x); }
    }
  }

  lemma SelfMergeIsEndless(h: Store, p: TreeNode, fuel: nat)
    requires MergeCells(h, p, p, fuel).Some?
    ensures var m := MergeCells(h, p, p, fuel).value; m.root == p && Endless(m.store, p)
  {
    MergedIsReached(h, p, h[p].left, fuel - 1);
    var m := MergeCells(h, p, h[p].left, fuel - 1).value;
    RedirectLoop(m.store, p, m.root);
  }

  // ----- Merging stays among the nodes it starts from -----

  ghost predicate InOrNull(p: TreeNode?, nodes: set<TreeNode>) { p != null ==> p in nodes }

  ghost predicate Closed(h: Store, nodes: set<TreeNode>) {
    nodes <= h.Keys && forall n {:trigger h[n]} :: n in nodes ==> InOrNull(h[n].left, nodes) && InOrNull(h[n].right, nodes)
  }

  lemma {:induction false} MergeStaysInside(h: Store, l: TreeNode?, r: TreeNode?, nodes: set<TreeNode>, fuel: nat)
    requires Closed(h, nodes) && InOrNull(l, nodes) && InOrNull(r, nodes) && MergeCells(h, l, r, fuel).Some?
    ensures var m := MergeCells(h, l, r, fuel).value;
      Closed(m.store, nodes) && InOrNull(m.root, nodes) && SameOutside(h, m.store, nodes)
    decreases fuel
  {
    if l != null && r != null {
      if h[l].block.size > h[r].block.size {
        MergeStaysInside(h, h[l].right, r, nodes, fuel - 1);
      } else {
        MergeStaysInside(h, l, h[r].left, nodes, fuel - 1);
      }
    }
  }

  lemma {:induction false} LaidIsClosed(h: Store, p: TreeNode?, t: Tree)
    requires Laid(h, p, t)
    ensures Closed(h, Nodes(t)) && InOrNull(p, Nodes(t))
  {
    if t.Fork? {
      LaidIsClosed(h, h[p].left, t.left);
      LaidIsClosed(h, h[p].right, t.right);
    }
  }

  /** Every node of the set has its left child in the set. */
  ghost predicate LeftClosed(h: Store, nodes: set<TreeNode>) {
    nodes <= h.Keys && forall n {:trigger h[n]} :: n in nodes ==> h[n].left != null && h[n].left in nodes
  }

  lemma {:induction false} LeftClosedWalk(h: Store, nodes: set<TreeNode>, x: TreeNode, k: nat)
    requires LeftClosed(h, nodes) && x in nodes
    ensures Walk(h, x, k) != null
    decreases k
  {
    if k > 0 { LeftClosedWalk(h, nodes, h[x].left, k - 1); }
  }

  lemma LeftClosedIsEndless(h: Store, nodes: set<TreeNode>, x: TreeNode)
    requires LeftClosed(h, nodes) && x in nodes
    ensures Endless(h, x)
  {
    forall k: nat ensures Walk(h, x, k) != null { LeftClosedWalk(h, nodes, x, k); }
  }

  /** `x` is on an endless walk inside `loop`; everything else in question is among `nodes`. */
  ghost predicate LoopBeside(h: Store, x: TreeNode, loop: set<TreeNode>, nodes: set<TreeNode>) {
    LeftClosed(h, loop) && x in loop && loop !! nodes && Closed(h, nodes) && InOrNull(h[x].right, nodes)
  }

  /** Merging an endless walk with other nodes leaves an endless walk. */
  lemma {:induction false} EndlessStays(h: Store, x: TreeNode, y: TreeNode?, loop: set<TreeNode>, nodes: set<TreeNode>, fuel: nat)
    requires LoopBeside(h, x, loop, nodes) && InOrNull(y, nodes) && MergeCells(h, x, y, fuel).Some?
    ensures var m := MergeCells(h, x, y, fuel).value; Endless(m.store, m.root)
    decreases fuel
  {
    if y == null {
      LeftClosedIsEndless(h, loop, x);
    } else if h[x].block.size > h[y].block.size {
      EndlessAbove(h, x, y, loop, nodes, fuel);
    } else {
      assert InOrNull(h[y].left, nodes);
      EndlessStays(h, x, h[y].left, loop, nodes, fuel - 1);
      EndlessBelow(h, x, y, fuel);
    }
  }

  lemma EndlessAbove(h: Store, x: TreeNode, y: TreeNode, loop: set<TreeNode>, nodes: set<TreeNode>, fuel: nat)
    requires LoopBeside(h, x, loop, nodes) && y in nodes && MergeCells(h, x, y, fuel).Some?
    requires h[x].block.size > h[y].block.size
    ensures var m := MergeCells(h, x, y, fuel).value; Endless(m.store, m.root)
  {
    var m := MergeCells(h, h[x].right, y, fuel - 1).value;
    MergeStaysInside(h, h[x].right, y, nodes, fuel - 1);
    EndlessOnTop(h, m.store, x, m.root, loop, nodes);
  }

  lemma EndlessBelow(h: Store, x: TreeNode, y: TreeNode, fuel: nat)
    requires MergeCells(h, x, y, fuel).Some? && h[x].block.size <= h[y].block.size
    requires var m := MergeCells(h, x, h[y].left, fuel - 1).value; Endless(m.store, m.root)
    ensures var m := MergeCells(h, x, y, fuel).value; Endless(m.store, m.root)
  {
    var m := MergeCells(h, x, h[y].left, fuel - 1).value;
    RedirectLoop(m.store, y, m.root);
  }

  lemma EndlessOnTop(h: Store, h': Store, x: TreeNode, q: TreeNode?, loop: set<TreeNode>, nodes: set<TreeNode>)
    requires LeftClosed(h, loop) && x in loop && loop !! nodes && SameOutside(h, h', nodes)
    ensures x in h' && Endless(SetRight(h', x, q), x)
  {
    forall n | n in loop ensures n in h' && h'[n] == h[n] { assert n !in nodes; }
    LeftClosedIsEndless(SetRight(h', x, q), loop, x);
  }

  // ----- The root put back with its old children -----

  /** The first merge sends the root to its old left child, whose walk to the left no longer ends. */
  lemma StaleLeftMerge(h: Store, root: TreeNode, l: Tree, r: Tree, fuel: nat) returns (loop: set<TreeNode>)
    requires Parts(h, root, l, r) && l.Fork? && MergeCells(h, h[root].left, root, fuel).Some?
    ensures var m := MergeCells(h, h[root].left, root, fuel).value;
      && m.root == root && root in loop && LeftClosed(m.store, loop) && loop <= Nodes(l) + {root}
      && m.store[root].right == h[root].right && SameOutside(h, m.store, Nodes(l) + {root})
  {
    var p: TreeNode := h[root].left;
    LaidIsClosed(h, p, l);
    SelfMergeIsEndless(h, p, fuel - 1);
    MergeStaysInside(h, p, p, Nodes(l), fuel - 1);
    var inner := MergeCells(h, p, p, fuel - 1).value;
    loop := LoopFrom(inner.store, p, Nodes(l));
    loop := loop + {root};
  }

  /** A root whose old left child is back on its left: the walk to the left never ends. */
  lemma StaleLeft(h: Store, root: TreeNode, l: Tree, r: Tree, fuel: nat)
    requires Parts(h, root, l, r) && l.Fork? && JoinCells(h, h[root].left, root, h[root].right, fuel).Some?
    ensures var q := JoinCells(h, h[root].left, root, h[root].right, fuel).value; Endless(q.store, q.root)
  {
    var loop := StaleLeftMerge(h, root, l, r, fuel);
    var m := MergeCells(h, h[root].left, root, fuel).value;
    LaidIsClosed(h, h[root].right, r);
    EndlessStays(m.store, root, h[root].right, loop, Nodes(r), fuel);
  }

  /** The nodes an endless walk meets. */
  lemma LoopFrom(h: Store, p: TreeNode, nodes: set<TreeNode>) returns (loop: set<TreeNode>)
    requires Closed(h, nodes) && p in nodes && Endless(h, p)
    ensures loop <= nodes && p in loop && LeftClosed(h, loop)
  {
    loop := set n | n in nodes && Reaches(h, p, n);
    assert Walk(h, p, 0) == p;
    forall n | n in loop ensures h[n].left != null && h[n].left in loop {
      var k: nat :| Walk(h, p, k) == n;
      WalkOn(h, p, k, 1);
      assert Walk(h, n, 1) == Walk(h, h[n].left, 0);
      assert Walk(h, p, k + 1) == h[n].left;
    }
  }

  /** The root and what hangs below it, each in its place. */
  ghost predicate Parts(h: Store, root: TreeNode, l: Tree, r: Tree) {
    && root in h && Laid(h, h[root].left, l) && Laid(h, h[root].right, r)
    && Separate(l) && Separate(r) && Nodes(l) !! Nodes(r) && root !in Nodes(l) && root !in Nodes(r)
    && (l.Fork? ==> l.block.size <= h[root].block.size) && (r.Fork? ==> r.block.size <= h[root].block.size)
  }

  /** `x` keeps its right child `q` when both have the same size. */
  lemma {:induction false} RightKept(h: Store, x: TreeNode, y: TreeNode?, q: TreeNode, fuel: nat)
    requires x in h && q in h && h[x].right == q && h[q].block.size == h[x].block.size && MergeCells(h, x, y, fuel).Some?
    ensures MergeCells(h, x, y, fuel).value.store[x].right == q
    decreases fuel
  {
    if y != null && h[x].block.size <= h[y].block.size { RightKept(h, x, h[y].left, q, fuel - 1); }
  }

  /** A tree cannot come back to its root by way of a right child. */
  lemma NoWayBack(h: Store, q: TreeNode, x: TreeNode, k: nat, t: Tree)
    requires Walk(h, q, k) == x && x in h && h[x].right == q
    ensures !Laid(h, q, t)
  {
    if Laid(h, q, t) {
      var u := AlongLeft(h, q, t, k);
      SameTree(h, q, t, u.right);
    }
  }

  lemma {:induction false} AlongLeft(h: Store, p: TreeNode?, t: Tree, k: nat) returns (u: Tree)
    requires Laid(h, p, t)
    ensures Laid(h, Walk(h, p, k), u) && Count(u) <= Count(t)
    decreases k
  {
    if k == 0 || t.Empty? { u := t; } else { u := AlongLeft(h, h[p].left, t.left, k - 1); }
  }

  lemma {:induction false} SameTree(h: Store, p: TreeNode?, t: Tree, u: Tree)
    requires Laid(h, p, t) && Laid(h, p, u)
    ensures t == u
    decreases t
  {
    if t.Fork? {
      SameTree(h, h[p].left, t.left, u.left);
      SameTree(h, h[p].right, t.right, u.right);
    }
  }

  lemma {:induction false} WalkIgnoresRight(h: Store, n: TreeNode, q: TreeNode?, p: TreeNode?, k: nat)
    requires n in h
    ensures Walk(SetRight(h, n, q), p, k) == Walk(h, p, k)
    decreases k
  {
    if k > 0 && p != null && p in h { WalkIgnoresRight(h, n, q, h[p].left, k - 1); }
  }

  lemma RightIsEndless(h: Store, root: TreeNode, q: TreeNode)
    requires root in h && Endless(h, q)
    ensures Endless(SetRight(h, root, q), q)
  {
    forall k: nat ensures Walk(SetRight(h, root, q), q, k) != null { WalkIgnoresRight(h, root, q, q, k); }
  }

  /** Some node to the left of `p`, or `p` itself, has `p` for its right child. */
  ghost predicate ComesBack(h: Store, p: TreeNode) {
    exists k: nat :: Walk(h, p, k) != null && Walk(h, p, k) in h && h[Walk(h, p, k)].right == p
  }

  /** The three ways the pointers from `p` go round in circles. */
  ghost predicate Stuck(h: Store, p: TreeNode?) {
    Endless(h, p) || (p != null && (ComesBack(h, p) || (p in h && Endless(h, h[p].right))))
  }

  lemma StuckIsNoTree(h: Store, p: TreeNode?, t: Tree)
    requires Stuck(h, p)
    ensures !Laid(h, p, t)
  {
    if Endless(h, p) {
      EndlessIsNoTree(h, p, t);
    } else if ComesBack(h, p) {
      var k: nat :| Walk(h, p, k) != null && Walk(h, p, k) in h && h[Walk(h, p, k)].right == p;
      NoWayBack(h, p, Walk(h, p, k), k, t);
    } else if t.Fork? {
      EndlessIsNoTree(h, h[p].right, t.right);
    }
  }

  /** A root with an old right child only. */
  lemma StaleRight(h: Store, root: TreeNode, r: Tree, fuel: nat)
    requires Parts(h, root, Empty, r) && r.Fork? && JoinCells(h, null, root, h[root].right, fuel).Some?
    ensures var q := JoinCells(h, null, root, h[root].right, fuel).value; Stuck(q.store, q.root)
  {
    var q: TreeNode := h[root].right;
    var o := MergeCells(h, root, q, fuel).value;
    if h[root].block.size > h[q].block.size {
      SelfMergeIsEndless(h, q, fuel - 1);
      RightIsEndless(MergeCells(h, q, q, fuel - 1).value.store, root, q);
    } else {
      RightKept(h, root, q, q, fuel);
      MergedIsReached(h, root, q, fuel);
      if !Endless(o.store, q) {
        var k: nat :| Walk(o.store, q, k) == root;
        assert ComesBack(o.store, q);
      }
    }
  }

  // ----- Removal and reinsertion -----

  /** Splitting what is left at the address of the root gives its two subtrees. */
  lemma SplitOfRest(b: Block, l: Tree, r: Tree, lo: int, hi: int)
    requires b.size > 0 && Spaced(l, lo, b.addr - 1, 1) && Spaced(r, b.End() + 1, hi, 1)
    ensures Split(Merge(l, r), b.addr) == Pair(l, r)
  {
    SpacedWiden(l, lo, b.addr - 1, 1, lo, b.addr, 1);
    SpacedWiden(r, b.End() + 1, hi, 1, b.addr + 1, hi, 1);
    SplitUndoesMerge(l, r, lo, hi, 1, b.addr);
  }

  /** The two neighbour searches of `insert_treap` find nothing that touches the root. */
  lemma NoNeighbour(b: Block, l: Tree, r: Tree, lo: int, hi: int)
    requires b.size > 0 && Spaced(l, lo, b.addr - 1, 1) && Spaced(r, b.End() + 1, hi, 1)
    ensures FuseLeft(l, b) == Fusion(l, b, []) && FuseRight(r, b) == Fusion(r, b, [])
  {
    if l.Fork? { RightmostSpaced(l, lo, b.addr - 1, 1); }
    if r.Fork? { LeftmostSpaced(r, b.End() + 1, hi, 1); }
  }

  /** Around a leaf the two merges return and lay out the tree they should. */
  lemma JoinedLeaf(h: Store, l: TreeNode?, n: TreeNode, r: TreeNode?, tl: Tree, tr: Tree, fuel: nat)
    requires Laid(h, l, tl) && Laid(h, r, tr) && Separate(tl) && Separate(tr) && Nodes(tl) !! Nodes(tr)
    requires n in h && h[n].left == null && h[n].right == null && n !in Nodes(tl) && n !in Nodes(tr)
    requires fuel > Count(tl) + Count(tr)
    ensures JoinCells(h, l, n, r, fuel).Some?
    ensures var q := JoinCells(h, l, n, r, fuel).value;
      Laid(q.store, q.root, Merge(Merge(tl, Fork(n, h[n].block, Empty, Empty)), tr))
  {
    var leaf := Fork(n, h[n].block, Empty, Empty);
    assert Count(leaf) == 1 + Count(Empty) + Count(Empty);
    assert Nodes(leaf) == {n} + Nodes(Empty) + Nodes(Empty) == {n};
    assert Laid(h, n, leaf) && Separate(leaf);
    MergeReturns(h, l, n, tl, leaf, fuel);
    MergeLaid(h, l, n, tl, leaf, fuel);
    MergeNodes(tl, leaf);
    MergeCount(tl, leaf);
    var m := MergeCells(h, l, n, fuel).value;
    LaidFrame(h, m.store, r, tr);
    MergeReturns(m.store, m.root, r, Merge(tl, leaf), tr, fuel);
    MergeLaid(m.store, m.root, r, Merge(tl, leaf), tr, fuel);
  }

  /** Removing the root and splitting at its address puts the two subtrees back as they were. */
  lemma RemovedAndSplit(h: Store, root: TreeNode, b: Block, l: Tree, r: Tree, fuel: nat)
    requires Laid(h, root, Fork(root, b, l, r)) && Separate(Fork(root, b, l, r))
    requires Split(Merge(l, r), b.addr) == Pair(l, r) && fuel >= Count(l) + Count(r)
    ensures RemoveRootCells(h, root, fuel).Some?
    ensures
      var rest := RemoveRootCells(h, root, fuel).value;
      && SplitCells(rest.store, rest.root, b.addr, fuel).Some?
      && var s := SplitCells(rest.store, rest.root, b.addr, fuel).value;
      && Laid(s.store, s.left, l) && Laid(s.store, s.right, r)
      && root in s.store && s.store[root] == h[root]
  {
    MergeReturns(h, h[root].left, h[root].right, l, r, fuel);
    var rest := RemoveRootCells(h, root, fuel).value;
    MergeLaid(h, h[root].left, h[root].right, l, r, fuel);
    MergeNodes(l, r);
    MergeCount(l, r);
    SplitReturns(rest.store, rest.root, Merge(l, r), b.addr, fuel);
    SplitLaid(rest.store, rest.root, Merge(l, r), b.addr, fuel);
  }

  /** Both merges return. */
  lemma BothMergesReturn(h: Store, root: TreeNode, l: Tree, r: Tree, fuel: nat)
    requires Parts(h, root, l, r) && fuel > 2 * (Count(l) + Count(r))
    ensures JoinCells(h, h[root].left, root, h[root].right, fuel).Some?
  {
    MergeReturns(h, h[root].left, root, l, Fork(root, h[root].block, l, r), fuel);
    var m := MergeCells(h, h[root].left, root, fuel).value;
    if l.Fork? { var _ := StaleLeftMerge(h, root, l, r, fuel); }
    LaidFrame(h, m.store, h[root].right, r);
    JoinReturns(m.store, root, h[root].right, r, r, fuel);
  }

  /** Around a node whose children are the very roots it is merged with, they lead round in circles. */
  lemma JoinedIsStuck(h: Store, root: TreeNode, l: Tree, r: Tree, fuel: nat)
    requires Parts(h, root, l, r) && (l.Fork? || r.Fork?)
    requires JoinCells(h, h[root].left, root, h[root].right, fuel).Some?
    ensures var q := JoinCells(h, h[root].left, root, h[root].right, fuel).value;
      var nodes := Nodes(l) + Nodes(r) + {root};
      Stuck(q.store, q.root) && Closed(q.store, nodes) && InOrNull(q.root, nodes)
  {
    if l.Fork? { StaleLeft(h, root, l, r, fuel); } else { StaleRight(h, root, r, fuel); }
    var nodes := Nodes(l) + Nodes(r) + {root};
    LaidIsClosed(h, h[root].left, l);
    LaidIsClosed(h, h[root].right, r);
    assert Closed(h, nodes);
    MergeStaysInside(h, h[root].left, root, nodes, fuel);
    var m := MergeCells(h, h[root].left, root, fuel).value;
    MergeStaysInside(m.store, m.root, h[root].right, nodes, fuel);
  }

  lemma JoinedIsTreeIff(h: Store, root: TreeNode, l: Tree, r: Tree, fuel: nat)
    requires Parts(h, root, l, r) && JoinCells(h, h[root].left, root, h[root].right, fuel).Some?
    ensures var q := JoinCells(h, h[root].left, root, h[root].right, fuel).value;
      (exists t :: Laid(q.store, q.root, t)) <==> l.Empty? && r.Empty?
  {
    var q := JoinCells(h, h[root].left, root, h[root].right, fuel).value;
    if l.Fork? || r.Fork? {
      JoinedIsStuck(h, root, l, r, fuel);
      forall t ensures !Laid(q.store, q.root, t) { StuckIsNoTree(q.store, q.root, t); }
    } else {
      assert q == Outcome(h, root) && Laid(h, null, Empty);
      var t := Fork(root, h[root].block, Empty, Empty);
      assert Laid(q.store, q.root, t);
      assert exists t :: Laid(q.store, q.root, t);
    }
  }

  // ----- In the heap -----

  /** From `q` the pointers stay among `all` and go round in circles. */
  ghost predicate Broken(q: TreeNode?, all: set<TreeNode>)
    reads all
  {
    Closed(Snapshot(all), all) && InOrNull(q, all) && Stuck(Snapshot(all), q)
  }

  lemma {:induction false} TreeStaysInside(q: TreeNode?, t: Tree, all: set<TreeNode>)
    requires Closed(Snapshot(all), all) && InOrNull(q, all) && IsTree(q, t)
    ensures Nodes(t) <= all
  {
    if t.Fork? {
      assert Snapshot(all)[q] == Cell(q.block, q.left, q.right);
      TreeStaysInside(q.left, t.left, all);
      TreeStaysInside(q.right, t.right, all);
    }
  }

  /** No tree of any shape is laid out there. */
  lemma BrokenIsNoTree(q: TreeNode?, all: set<TreeNode>, t: Tree)
    requires Broken(q, all)
    ensures !IsTree(q, t)
  {
    if IsTree(q, t) {
      TreeStaysInside(q, t, all);
      LaidIsTree(q, t, all);
      StuckIsNoTree(Snapshot(all), q, t);
    }
  }

  /**
   The calls return, and what they leave is a tree exactly when the root had no
   children.
   */
  lemma ReinsertedIsTreeIff(h: Store, root: TreeNode, b: Block, l: Tree, r: Tree, lo: int, hi: int, fuel: nat)
    requires Laid(h, root, Fork(root, b, l, r)) && Separate(Fork(root, b, l, r)) && FreeTreap(Fork(root, b, l, r), lo, hi)
    requires fuel > 2 * (Count(l) + Count(r))
    ensures RemoveAndReinsert(h, root, fuel).Some?
    ensures var q := RemoveAndReinsert(h, root, fuel).value;
      (exists t :: Laid(q.store, q.root, t)) <==> l.Empty? && r.Empty?
  {
    SplitOfRest(b, l, r, lo, hi);
    RemovedAndSplit(h, root, b, l, r, fuel);
    var rest := RemoveRootCells(h, root, fuel).value;
    var s := SplitCells(rest.store, rest.root, b.addr, fuel).value;
    assert s.left == h[root].left && s.right == h[root].right;
    BothMergesReturn(s.store, root, l, r, fuel);
    JoinedIsTreeIff(s.store, root, l, r, fuel);
  }
}
