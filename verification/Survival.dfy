/**
 What a collection means for the mutator: reachable objects still resolve where
 they did, everything else is free again, and what marks left over from before
 would spoil.
 */
module Survival {
  import LargeRuns
  import T = BlockTrees
  import opened SearchLaws
  import LargeShape
  import opened SmallMachine
  import opened SmallRuns
  import opened Objects
  import opened Reachability
  import opened Allocations
  import opened Collector

  /** Every address that resolves to a marked object resolves to it after the sweep as before, partial slots included. */
  lemma MarkedSurvives(l: Layout, l': Layout, slots: set<Slot>, m: set<nat>, o: nat, a: nat)
    requires AfterSweep(l, l', slots, m) && o in m && GetObject(l, a) == T.Some(o)
    ensures GetObject(l', a) == T.Some(o)
  {
    if InLarge(l, a) {
      LargeSurvives(l, l', slots, m, o, a);
    } else {
      SmallSurvives(l, l', slots, m, o, a);
    }
  }

  lemma LargeSurvives(l: Layout, l': Layout, slots: set<Slot>, m: set<nat>, o: nat, a: nat)
    requires AfterSweep(l, l', slots, m) && o in m && GetObject(l, a) == T.Some(o) && InLarge(l, a)
    ensures GetObject(l', a) == T.Some(o)
  {
    var b := T.ExtSearchBst(l.occupied, a).value.block;
    ExtSearchFindsHolder(l.occupied, l.largeStart, l.largeEnd, a, b);
    assert b in BlocksOf(l, m);
    LargeInterior(l', b, a);
  }

  lemma SmallSurvives(l: Layout, l': Layout, slots: set<Slot>, m: set<nat>, o: nat, a: nat)
    requires AfterSweep(l, l', slots, m) && o in m && GetObject(l, a) == T.Some(o) && !InLarge(l, a)
    ensures GetObject(l', a) == T.Some(o)
  {
    InsideItsSlot(l, a, o);
    ObjectHasSlot(l, o);
    var x := SlotOf(l, o);
    assert x in slots && HasMark(slots, x.block) by { assert x == Slot(x.block, x.index); }
    assert l'.sizes[x.block] == l.sizes[x.block];
    SmallInterior(l', x.block, x.index, a);
  }

  /** Every byte of a large block that was not marked is free after the sweep. */
  lemma UnmarkedIsFree(l: Layout, l': Layout, slots: set<Slot>, m: set<nat>, large: LargeRuns.Large, all: set<T.TreeNode>,
                       b: T.Block, x: nat)
    requires AfterSweep(l, l', slots, m) && l'.occupied == Erase(large.occupied)
    requires LargeRuns.Inv(large, l.largeStart, l.largeEnd, all)
    requires b in T.Blocks(l.occupied) && b.addr !in m && b.Within(x)
    ensures T.Covers(large.free, x)
  {
    BlockBounds(l.occupied, l.largeStart, l.largeEnd, 0, b);
    EraseKeeps(large.occupied, x);
    if T.Covers(large.occupied, x) {
      var c := LargeShape.Holder(Erase(large.occupied), x);
      ExtSearchFindsHolder(l.occupied, l.largeStart, l.largeEnd, x, b);
      ExtSearchFindsHolder(l.occupied, l.largeStart, l.largeEnd, x, c);
      assert false;
    }
  }

  /**
   What `Heap.Collect` leaves: an address that resolves to a marked object resolves
   to it still, and every byte of an unmarked large block is free.
   */
  lemma AfterCollect(heap: Heap, l: Layout, m: set<nat>)
    requires AfterSweep(l, heap.Now(), heap.small.st.used, m) && heap.large.Valid()
    ensures forall o, a :: o in m && GetObject(l, a) == T.Some(o) ==> GetObject(heap.Now(), a) == T.Some(o)
    ensures forall b, x: nat :: b in T.Blocks(l.occupied) && b.addr !in m && b.Within(x) ==> T.Covers(heap.large.free, x)
  {
    forall o, a | o in m && GetObject(l, a) == T.Some(o) ensures GetObject(heap.Now(), a) == T.Some(o) {
      MarkedSurvives(l, heap.Now(), heap.small.st.used, m, o, a);
    }
    forall b, x: nat | b in T.Blocks(l.occupied) && b.addr !in m && b.Within(x) ensures T.Covers(heap.large.free, x) {
      UnmarkedIsFree(l, heap.Now(), heap.small.st.used, m, heap.large.State(), heap.large.nodes, b, x);
    }
  }

  // ----- What the next allocations hand out -----

  /**
   From a heap in which any number of threads have blocks in their caches, marked and
   swept: until the next NULL no thread is handed a byte of a marked object.
   */
  lemma SurvivorsAreNotHandedOut(l: Layout, s: Small, m: set<nat>, steps: seq<Step>, o: nat, a: nat, x: Slot)
    requires LayoutOk(l) && SameSizes(l, s) && SlotsOf(l, m, s.marks) && IsRun(Sweep(s), steps)
    requires o in m && GetObject(l, a) == T.Some(o) && !InLarge(l, a) && x in Outputs(Sweep(s), steps)
    ensures var s' := Final(Sweep(s), steps);
      x.block < |s'.blocks| && !InSlot(l.smallStart, x.block, s'.blocks[x.block].size, x.index, a)
  {
    ReadableMarks(l, s);
    SweepEstablishes(s);
    RunHandsOutFreshSlots(Sweep(s), steps);
    InsideItsSlot(l, a, o);
    ObjectHasSlot(l, o);
    var y := SlotOf(l, o);
    assert y in s.marks && HasMark(s.marks, y.block) by { assert y == Slot(y.block, y.index); }
    SizeIsKept(Sweep(s), steps, y);
    UsedSlotsDisjoint(Final(Sweep(s), steps), l.smallStart, x, y, a);
  }

  /**
   The slot of an unmarked object is there to be had: when a single mutator is told
   that a size has run out, every such slot in a block of that size was handed out.
   */
  lemma UnmarkedSlotIsHandedOut(l: Layout, m: set<nat>, s: Small, steps: seq<Step>, t: nat, x: Slot)
    requires SlotsOf(l, m, s.marks) && MarksOk(s) && IsRun(Sweep(s), steps) && AllBy(steps, t)
    requires var s' := Final(Sweep(s), steps);
      Fails(s', t) && x.block < |s'.blocks| && s'.blocks[x.block].size == PcOf(s', t).size
      && SizeOk(PcOf(s', t).size) && x.index < Slots(PcOf(s', t).size)
    requires SlotIsObject(l, x) && ObjectOf(l, x) !in m
    ensures x in Outputs(Sweep(s), steps)
  {
    NullMeansHandedOut(s, steps, t, x.block, x.index);
    assert x == Slot(x.block, x.index);
  }

  // ----- Marks left over from before -----

  /**
   Marking with `m0` already marked finds every reachable object exactly when each
   child of a reachable object of `m0`, which it does not scan, is in `m0` or
   reached around it.
   */
  lemma MarkingCompleteIff(l: Layout, mem: nat -> nat, roots: seq<nat>, m0: set<nat>, m: set<nat>)
    requires MarkedAround(l, mem, roots, m0, m)
    ensures (forall o :: Reachable(l, mem, roots, {}, o) ==> o in m) <==>
      (forall o, q :: o in m0 && Reachable(l, mem, roots, {}, o) && Edge(l, mem, o, q) ==>
         q in m0 || Reachable(l, mem, roots, m0, q))
  {
    if forall o :: Reachable(l, mem, roots, {}, o) ==> o in m {
      forall o, q | o in m0 && Reachable(l, mem, roots, {}, o) && Edge(l, mem, o, q)
        ensures q in m0 || Reachable(l, mem, roots, m0, q)
      {
        EdgeReachable(l, mem, roots, {}, o, q);
        assert q in m;
      }
    }
    if forall o, q :: o in m0 && Reachable(l, mem, roots, {}, o) && Edge(l, mem, o, q) ==>
         q in m0 || Reachable(l, mem, roots, m0, q)
    {
      forall o | Reachable(l, mem, roots, {}, o) ensures o in m {
        var p :| IsPath(l, mem, roots, {}, p) && p[|p| - 1] == o;
        PathIsMarked(l, mem, roots, m0, p);
      }
    }
  }

  lemma {:induction false} PathIsMarked(l: Layout, mem: nat -> nat, roots: seq<nat>, m0: set<nat>, p: seq<nat>)
    requires forall o, q :: o in m0 && Reachable(l, mem, roots, {}, o) && Edge(l, mem, o, q) ==>
      q in m0 || Reachable(l, mem, roots, m0, q)
    requires IsPath(l, mem, roots, {}, p)
    ensures p[|p| - 1] in m0 || Reachable(l, mem, roots, m0, p[|p| - 1])
    decreases |p|
  {
    var o := p[|p| - 1];
    if |p| == 1 {
      if o !in m0 { RootReachable(l, mem, roots, m0, o); }
    } else {
      var prefix := p[..|p| - 1];
      var before := p[|p| - 2];
      assert IsPath(l, mem, roots, {}, prefix) && prefix[|prefix| - 1] == before;
      PathIsMarked(l, mem, roots, m0, prefix);
      assert Edge(l, mem, before, o);
      if before !in m0 && o !in m0 { EdgeReachable(l, mem, roots, m0, before, o); }
    }
  }
}
