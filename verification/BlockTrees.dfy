/**
 The two search trees of the large-object allocator, as values.

 A `Tree` records, for every node of the pointer structure, which `TreeNode`
 object it is and which block that object holds.  Node identity matters:
 removal moves a block from one node into another, and the node pool only ever
 hands out nodes.  The functions below are the tree operations written over
 these values; LargeHeap.dfy runs the same operations on the pointers.
 */
module BlockTrees {

  /** A block of the large heap: the `Header` struct. */
  datatype Block = Block(addr: nat, size: nat, isMarked: bool) {
    function End(): nat { addr + size }

    predicate Within(x: int) { addr <= x < End() }
  }

  class TreeNode {
    var block: Block
    var left: TreeNode?
    var right: TreeNode?

    constructor (block: Block, right: TreeNode?)
      ensures this.block == block && this.left == null && this.right == right
    {
      this.block, this.left, this.right := block, null, right;
    }
  }

  datatype Tree = Empty | Fork(node: TreeNode, block: Block, left: Tree, right: Tree)

  datatype Option<+T> = None | Some(value: T)

  /** A node taken out of a tree, with the block it holds when it leaves. */
  datatype Detached = Detached(node: TreeNode, block: Block)

  datatype Removal = Removal(rest: Tree, out: Option<Detached>)

  datatype Insertion = Insertion(tree: Tree, freed: seq<TreeNode>)

  datatype Pair = Pair(left: Tree, right: Tree)

  /** A tree, a block enlarged by one taken from the tree, and the node that held it. */
  datatype Fusion = Fusion(tree: Tree, block: Block, freed: seq<TreeNode>)

  // ----- What a tree holds -----

  function Blocks(t: Tree): set<Block> {
    match t
    case Empty => {}
    case Fork(_, b, l, r) => {b} + Blocks(l) + Blocks(r)
  }

  /** Byte `x` belongs to a block of the tree. */
  predicate Covers(t: Tree, x: nat) {
    match t
    case Empty => false
    case Fork(_, b, l, r) => b.Within(x) || Covers(l, x) || Covers(r, x)
  }

  function Count(t: Tree): nat {
    match t
    case Empty => 0
    case Fork(_, _, l, r) => 1 + Count(l) + Count(r)
  }

  function Nodes(t: Tree): set<TreeNode> {
    match t
    case Empty => {}
    case Fork(n, _, l, r) => {n} + Nodes(l) + Nodes(r)
  }

  /** No object occurs twice in the tree. */
  predicate Separate(t: Tree) {
    match t
    case Empty => true
    case Fork(n, _, l, r) =>
      n !in Nodes(l) && n !in Nodes(r) && Nodes(l) !! Nodes(r) && Separate(l) && Separate(r)
  }

  // ----- Splitting and merging (treap.c) -----

  function Split(t: Tree, a: nat): (p: Pair)
  {
    match t
    case Empty => Pair(Empty, Empty)
    case Fork(n, b, l, r) =>
      if a < b.addr then
        var p := Split(l, a);
        Pair(p.left, Fork(n, b, p.right, r))
      else
        var p := Split(r, a);
        Pair(Fork(n, b, l, p.left), p.right)
  }

  function Merge(l: Tree, r: Tree): (t: Tree)
    decreases l, r
  {
    if l.Empty? || r.Empty? then
      if l.Empty? then r else l
    else if l.block.size > r.block.size then
      Fork(l.node, l.block, l.left, Merge(l.right, r))
    else
      Fork(r.node, r.block, Merge(l, r.left), r.right)
  }

  function Rightmost(t: Tree): (d: Detached)
    requires t.Fork?
  {
    if t.right.Empty? then Detached(t.node, t.block) else Rightmost(t.right)
  }

  function Leftmost(t: Tree): (d: Detached)
    requires t.Fork?
  {
    if t.left.Empty? then Detached(t.node, t.block) else Leftmost(t.left)
  }

  // ----- Search trees (binary-search-tree.c) -----

  function InsertBst(t: Tree, n: TreeNode, b: Block): (t': Tree)
  {
    match t
    case Empty => Fork(n, b, Empty, Empty)
    case Fork(m, c, l, r) =>
      if b.addr < c.addr then Fork(m, c, InsertBst(l, n, b), r)
      else Fork(m, c, l, InsertBst(r, n, b))
  }

  function SearchBst(t: Tree, a: nat): Option<Detached> {
    match t
    case Empty => None
    case Fork(n, b, l, r) =>
      if a == b.addr then Some(Detached(n, b))
      else if a < b.addr then SearchBst(l, a)
      else SearchBst(r, a)
  }

  function ExtSearchBst(t: Tree, a: nat): Option<Detached> {
    match t
    case Empty => None
    case Fork(n, b, l, r) =>
      if b.addr <= a < b.End() then Some(Detached(n, b))
      else if a < b.addr then ExtSearchBst(l, a)
      else ExtSearchBst(r, a)
  }

  /** The tree without its leftmost node. */
  function DropMin(t: Tree): (t': Tree)
    requires t.Fork?
  {
    if t.left.Empty? then t.right else Fork(t.node, t.block, DropMin(t.left), t.right)
  }

  /** The tree without its rightmost node. */
  function DropMax(t: Tree): (t': Tree)
    requires t.Fork?
  {
    if t.right.Empty? then t.left else Fork(t.node, t.block, t.left, DropMax(t.right))
  }

  /**
   Removal by address.  A node with two children keeps its place and takes over
   the block of its in-order successor, whose node leaves instead.  As written,
   the leaving node still holds the successor's block; with `repaired` it holds
   the block that was asked for.
   */
  function RemoveBst(t: Tree, a: nat, repaired: bool): (rm: Removal)
  {
    match t
    case Empty => Removal(Empty, None)
    case Fork(n, b, l, r) =>
      if a < b.addr then
        var rm := RemoveBst(l, a, repaired);
        Removal(Fork(n, b, rm.rest, r), rm.out)
      else if a > b.addr then
        var rm := RemoveBst(r, a, repaired);
        Removal(Fork(n, b, l, rm.rest), rm.out)
      else if l.Empty? then
        Removal(r, Some(Detached(n, b)))
      else if r.Empty? then
        Removal(l, Some(Detached(n, b)))
      else
        var min := Leftmost(r);
        Removal(Fork(n, min.block, l, DropMin(r)), Some(Detached(min.node, if repaired then b else min.block)))
  }

  // ----- The treap of free blocks (treap.c) -----

  /** Fuses `b` with the last block of `l` when the two touch. */
  function FuseLeft(l: Tree, b: Block): Fusion {
    if l.Fork? && Rightmost(l).block.End() == b.addr then
      var last := Rightmost(l).block;
      var rm := RemoveBst(l, last.addr, false);
      Fusion(rm.rest, Block(last.addr, b.size + last.size, b.isMarked), Freed(rm.out))
    else Fusion(l, b, [])
  }

  /** Fuses `b` with the first block of `r` when the two touch. */
  function FuseRight(r: Tree, b: Block): Fusion {
    if r.Fork? && b.End() == Leftmost(r).block.addr then
      var first := Leftmost(r).block;
      var rm := RemoveBst(r, first.addr, false);
      Fusion(rm.rest, Block(b.addr, b.size + first.size, b.isMarked), Freed(rm.out))
    else Fusion(r, b, [])
  }

  function Freed(out: Option<Detached>): seq<TreeNode> {
    if out.Some? then [out.value.node] else []
  }

  /**
   Inserts node `n`, a leaf holding `b`, and coalesces.  `freed` lists the nodes
   given back to the pool, the most recent first.
   */
  function InsertTreap(t: Tree, n: TreeNode, b: Block): Insertion {
    var p := Split(t, b.addr);
    var l := FuseLeft(p.left, b);
    var r := FuseRight(p.right, l.block);
    Insertion(Merge(Merge(l.tree, Fork(n, r.block, Empty, Empty)), r.tree), r.freed + l.freed)
  }

  function RemoveTreap(t: Tree, a: nat): (rm: Removal)
  {
    match t
    case Empty => Removal(Empty, None)
    case Fork(n, b, l, r) =>
      if b.addr == a then
        Removal(Merge(l, r), Some(Detached(n, b)))
      else if a < b.addr then
        var rm := RemoveTreap(l, a);
        Removal(Fork(n, b, rm.rest, r), rm.out)
      else
        var rm := RemoveTreap(r, a);
        Removal(Fork(n, b, l, rm.rest), rm.out)
  }

  // ----- The sweep of the occupied tree (binary-search-tree.c) -----

  datatype Sweep = Sweep(occupied: Tree, free: Tree, pool: seq<TreeNode>)

  /** Post-order: both subtrees first, then the node itself. */
  function Cleanup(t: Tree, free: Tree, pool: seq<TreeNode>, repaired: bool): Sweep {
    match t
    case Empty => Sweep(Empty, free, pool)
    case Fork(n, b, l, r) =>
      var s1 := Cleanup(l, free, pool, repaired);
      var s2 := Cleanup(r, s1.free, s1.pool, repaired);
      if b.isMarked then
        Sweep(Fork(n, b.(isMarked := false), s1.occupied, s2.occupied), s2.free, s2.pool)
      else
        var rm := RemoveBst(Fork(n, b, s1.occupied, s2.occupied), b.addr, repaired);
        var ins := InsertTreap(s2.free, rm.out.value.node, rm.out.value.block);
        Sweep(rm.rest, ins.tree, ins.freed + s2.pool)
  }
}
