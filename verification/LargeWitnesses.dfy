/**
 Runs that bring the large heap to the states in which the code departs from its
 intent.  None of them needs a repair on the way.
 */
module LargeWitnesses {
  import opened Config
  import opened BlockTrees
  import opened SearchLaws
  import opened SweepLaws
  import opened LargeRuns

  /** The step is the same with and without the two repairs. */
  predicate NeedsNoRepair(s: Large, op: Op) {
    match op
    case Alloc(size) =>
      s.free.Empty? || s.free.block.size < Align(size) || (s.free.left.Empty? && s.free.right.Empty?)
    case Mark(_) => true
    case Sweeping => !Straddled(s.occupied)
  }

  ghost predicate RunsAsWritten(s: Large, ops: seq<Op>)
    decreases |ops|
  {
    ops == [] || (NeedsNoRepair(s, ops[0]) && RunsAsWritten(Step(s, ops[0]), ops[1..]))
  }

  lemma RunStep(s: Large, op: Op, ops: seq<Op>, s': Large)
    requires NeedsNoRepair(s, op) && Step(s, op) == s'
    ensures Run(s, [op] + ops) == Run(s', ops)
    ensures RunsAsWritten(s, [op] + ops) <==> RunsAsWritten(s', ops)
  {
  }

  function Leaf(n: TreeNode, a: nat, size: nat, marked: bool): Tree {
    Fork(n, Block(a, size, marked), Empty, Empty)
  }

  lemma InsertIntoEmpty(n: TreeNode, b: Block)
    ensures InsertTreap(Empty, n, b) == Insertion(Fork(n, b, Empty, Empty), [])
  {
  }

  /** Nodes `a` and `b` hold the blocks from 48 to 64 and from 64 to 80. */
  function Row(a: TreeNode, b: TreeNode, first: bool, second: bool): Tree {
    Fork(a, Block(48, 16, first), Empty, Leaf(b, 64, 16, second))
  }

  lemma RowSteps(a: TreeNode, b: TreeNode, f: Tree, p: seq<TreeNode>)
    ensures InsertBst(Leaf(a, 48, 16, false), b, Block(64, 16, false)) == Row(a, b, false, false)
    ensures SetMark(Row(a, b, false, false), 48) == Row(a, b, true, false)
    ensures SetMark(Row(a, b, true, false), 64) == Row(a, b, true, true)
    ensures Cleanup(Row(a, b, true, true), f, p, true) == Sweep(Row(a, b, false, false), f, p)
    ensures !Straddled(Row(a, b, true, true))
  {
  }

  /** From a single free block, allocating its first part. */
  lemma FirstPart(n: TreeNode, a: nat, size: nat, part: nat, occupied: Tree, m: TreeNode, pool: seq<TreeNode>)
    requires part % 8 == 0 && 0 < part < size
    ensures Step(Large(Leaf(n, a, size, false), occupied, [m] + pool), Alloc(part))
      == Large(Leaf(m, a + part, size - part, false), InsertBst(occupied, n, Block(a, part, false)), pool)
  {
  }

  /** The heap after three allocations and one sweep: the first block is free again, the others are live. */
  lemma AfterOneSweep(n: TreeNode, a: TreeNode, b: TreeNode, c: TreeNode, rest: seq<Op>)
    ensures
      var ops := [Alloc(32), Alloc(16), Alloc(16), Mark(48), Mark(64), Sweeping];
      var (s, s') := (Initial(n, [a, b, c], 16, 80), Large(Leaf(n, 16, 32, false), Row(a, b, false, false), [c]));
      Run(s, ops + rest) == Run(s', rest) && (RunsAsWritten(s, ops + rest) <==> RunsAsWritten(s', rest))
  {
    var s0 := Initial(n, [a, b, c], 16, 80);
    var s1 := Large(Leaf(a, 48, 32, false), Leaf(n, 16, 32, false), [b, c]);
    var s2 := Large(Leaf(b, 64, 16, false), Fork(n, Block(16, 32, false), Empty, Leaf(a, 48, 16, false)), [c]);
    var s3 := Large(Empty, Fork(n, Block(16, 32, false), Empty, Row(a, b, false, false)), [c]);
    var s4 := s3.(occupied := Fork(n, Block(16, 32, false), Empty, Row(a, b, true, false)));
    var s5 := s3.(occupied := Fork(n, Block(16, 32, false), Empty, Row(a, b, true, true)));
    var s6 := Large(Leaf(n, 16, 32, false), Row(a, b, false, false), [c]);
    RowSteps(a, b, Empty, [c]);
    InsertIntoEmpty(n, Block(16, 32, false));
    FirstPart(n, 16, 64, 32, Empty, a, [b, c]);
    FirstPart(a, 48, 32, 16, Leaf(n, 16, 32, false), b, [c]);
    assert [a] + [b, c] == [a, b, c] && [b] + [c] == [b, c];
    assert InsertBst(Empty, a, Block(48, 16, false)) == Leaf(a, 48, 16, false);
    RunStep(s5, Sweeping, rest, s6);
    RunStep(s4, Mark(64), [Sweeping] + rest, s5);
    RunStep(s3, Mark(48), [Mark(64), Sweeping] + rest, s4);
    RunStep(s2, Alloc(16), [Mark(48), Mark(64), Sweeping] + rest, s3);
    RunStep(s1, Alloc(16), [Alloc(16), Mark(48), Mark(64), Sweeping] + rest, s2);
    RunStep(s0, Alloc(32), [Alloc(16), Alloc(16), Mark(48), Mark(64), Sweeping] + rest, s1);
    Sequenced(rest);
  }

  lemma Sequenced(rest: seq<Op>)
    ensures [Mark(64)] + ([Sweeping] + rest) == [Mark(64), Sweeping] + rest
    ensures [Mark(48)] + ([Mark(64), Sweeping] + rest) == [Mark(48), Mark(64), Sweeping] + rest
    ensures [Alloc(16)] + ([Mark(48), Mark(64), Sweeping] + rest) == [Alloc(16), Mark(48), Mark(64), Sweeping] + rest
    ensures [Alloc(16)] + ([Alloc(16), Mark(48), Mark(64), Sweeping] + rest) == [Alloc(16), Alloc(16), Mark(48), Mark(64), Sweeping] + rest
    ensures [Alloc(32)] + ([Alloc(16), Alloc(16), Mark(48), Mark(64), Sweeping] + rest)
         == [Alloc(32), Alloc(16), Alloc(16), Mark(48), Mark(64), Sweeping] + rest
  {
  }

  /** One more allocation takes the first half of the free block. */
  lemma AfterFourth(n: TreeNode, a: TreeNode, b: TreeNode, c: TreeNode, rest: seq<Op>)
    ensures
      var ops := [Alloc(32), Alloc(16), Alloc(16), Mark(48), Mark(64), Sweeping, Alloc(16)];
      var (s, s') := (Initial(n, [a, b, c], 16, 80), Large(Leaf(c, 32, 16, false), Three(n, a, b, false, false, false), []));
      Run(s, ops + rest) == Run(s', rest) && (RunsAsWritten(s, ops + rest) <==> RunsAsWritten(s', rest))
  {
    var s0 := Large(Leaf(n, 16, 32, false), Row(a, b, false, false), [c]);
    AfterOneSweep(n, a, b, c, [Alloc(16)] + rest);
    FirstPart(n, 16, 32, 16, Row(a, b, false, false), c, []);
    assert [c] + [] == [c];
    assert InsertBst(Empty, n, Block(16, 16, false)) == Leaf(n, 16, 16, false);
    RunStep(s0, Alloc(16), rest, Large(Leaf(c, 32, 16, false), Three(n, a, b, false, false, false), []));
    assert [Alloc(32), Alloc(16), Alloc(16), Mark(48), Mark(64), Sweeping] + ([Alloc(16)] + rest)
        == [Alloc(32), Alloc(16), Alloc(16), Mark(48), Mark(64), Sweeping, Alloc(16)] + rest;
  }

  /** Marks on the three blocks that are left. */
  lemma ThreeMarks(n: TreeNode, a: TreeNode, b: TreeNode)
    ensures SetMark(Three(n, a, b, false, false, false), 16) == Three(n, a, b, true, false, false)
    ensures SetMark(Three(n, a, b, true, false, false), 64) == Three(n, a, b, true, false, true)
    ensures SetMark(Three(n, a, b, true, false, false), 48) == Three(n, a, b, true, true, false)
  {
  }

  /** A run after which a dead block lies between two live ones in its own subtree. */
  lemma StraddledIsReached(n: TreeNode, a: TreeNode, b: TreeNode, c: TreeNode)
    ensures
      var ops := [Alloc(32), Alloc(16), Alloc(16), Mark(48), Mark(64), Sweeping, Alloc(16)] + [Mark(16), Mark(64)];
      var s := Initial(n, [a, b, c], 16, 80);
      RunsAsWritten(s, ops) && Straddled(Run(s, ops).occupied)
  {
    var s1 := Large(Leaf(c, 32, 16, false), Three(n, a, b, false, false, false), []);
    var s2 := s1.(occupied := Three(n, a, b, true, false, false));
    var s3 := s1.(occupied := Three(n, a, b, true, false, true));
    AfterFourth(n, a, b, c, [Mark(16), Mark(64)]);
    ThreeMarks(n, a, b);
    RunStep(s2, Mark(64), [], s3);
    RunStep(s1, Mark(16), [Mark(64)], s2);
    assert [Mark(64)] + [] == [Mark(64)] && [Mark(16)] + [Mark(64)] == [Mark(16), Mark(64)];
    assert Run(s3, []) == s3 && RunsAsWritten(s3, []);
    assert HasLive(Leaf(n, 16, 16, true)) && HasLive(Leaf(b, 64, 16, true));
  }

  function Three(n: TreeNode, a: TreeNode, b: TreeNode, first: bool, second: bool, third: bool): Tree {
    Fork(a, Block(48, 16, second), Leaf(n, 16, 16, first), Leaf(b, 64, 16, third))
  }

  /** A run after which the next allocation takes a root with a child and has no node for what is left of it. */
  lemma StaleRootIsReached(n: TreeNode, a: TreeNode, b: TreeNode, c: TreeNode)
    ensures
      var ops := [Alloc(32), Alloc(16), Alloc(16), Mark(48), Mark(64), Sweeping, Alloc(16)] + [Mark(16), Mark(48), Sweeping];
      var s := Initial(n, [a, b, c], 16, 80);
      && RunsAsWritten(s, ops) && !NeedsNoRepair(Run(s, ops), Alloc(8))
      && Run(s, ops).pool == [] && Run(s, ops).free.block.size > 8
  {
    var s1 := Large(Leaf(c, 32, 16, false), Three(n, a, b, false, false, false), []);
    var s2 := s1.(occupied := Three(n, a, b, true, false, false));
    var s3 := s1.(occupied := Three(n, a, b, true, true, false));
    var s4 := Large(Fork(b, Block(64, 16, false), Leaf(c, 32, 16, false), Empty),
                    Fork(a, Block(48, 16, false), Leaf(n, 16, 16, false), Empty), []);
    AfterFourth(n, a, b, c, [Mark(16), Mark(48), Sweeping]);
    ThreeMarks(n, a, b);
    SweepLast(n, a, b, c);
    RunStep(s3, Sweeping, [], s4);
    RunStep(s2, Mark(48), [Sweeping], s3);
    RunStep(s1, Mark(16), [Mark(48), Sweeping], s2);
    assert [Sweeping] + [] == [Sweeping] && [Mark(48)] + [Sweeping] == [Mark(48), Sweeping];
    assert [Mark(16)] + [Mark(48), Sweeping] == [Mark(16), Mark(48), Sweeping];
    assert Run(s4, []) == s4 && RunsAsWritten(s4, []);
  }

  /** Only the last block is dead. */
  lemma SweepLast(n: TreeNode, a: TreeNode, b: TreeNode, c: TreeNode)
    ensures
      var t := Three(n, a, b, true, true, false);
      && !Straddled(t)
      && Cleanup(t, Leaf(c, 32, 16, false), [], true)
      == Sweep(Fork(a, Block(48, 16, false), Leaf(n, 16, 16, false), Empty),
               Fork(b, Block(64, 16, false), Leaf(c, 32, 16, false), Empty), [])
  {
    var f := Leaf(c, 32, 16, false);
    assert Split(f, 64) == Pair(f, Empty);
    assert Rightmost(f).block.End() == 48 && Merge(f, Empty) == f;
    assert FuseLeft(f, Block(64, 16, false)) == Fusion(f, Block(64, 16, false), []);
    assert Merge(f, Leaf(b, 64, 16, false)) == Fork(b, Block(64, 16, false), f, Empty);
    assert InsertTreap(f, b, Block(64, 16, false)) == Insertion(Fork(b, Block(64, 16, false), f, Empty), []);
    assert Cleanup(Leaf(n, 16, 16, true), f, [], true) == Sweep(Leaf(n, 16, 16, false), f, []);
    assert Cleanup(Leaf(b, 64, 16, false), f, [], true) == Sweep(Empty, Fork(b, Block(64, 16, false), f, Empty), []);
    assert !Straddled(Leaf(n, 16, 16, true)) && !Straddled(Leaf(b, 64, 16, false));
  }
}
