/**
 Runs of the small-object allocator between a sweep and the first NULL: no two
 threads work on one block, every slot handed out is new, and what a NULL means.
 */
module SmallRuns {
  import opened Config
  import opened SmallMachine

  lemma StepKeeps(s: Small, step: Step)
    requires Inv(s) && Enabled(s, step)
    ensures Inv(Apply(s, step))
  {
    match step
    case Start(t, size, cached) => StartKeeps(s, t, size, cached);
    case TakeSegreg(t, b) => TakeSegregKeeps(s, t, b);
    case NoSegreg(t) => NoSegregKeeps(s, t);
    case TakeEmpty(t, b) => TakeEmptyKeeps(s, t, b);
    case Pass(t) => PassKeeps(s, t);
    case Hit(t) => HitKeeps(s, t);
    case Miss(t) => MissKeeps(s, t);
    case Finish(t) => FinishKeeps(s, t);
  }

  // ----- The sweep (sweep_small_heap) -----

  /** Marks sit on slots, whole or partial, of blocks that have a size. */
  ghost predicate MarksOk(s: Small) {
    forall x :: x in s.marks ==>
      x.block < |s.blocks| && SizeOk(s.blocks[x.block].size) && x.index < Starts(s.blocks[x.block].size)
  }

  ghost predicate HasMark(marks: set<Slot>, b: nat) { exists i: nat :: Slot(b, i) in marks }

  ghost function Swept(k: BlockState, b: nat, marks: set<Slot>): BlockState {
    if HasMark(marks, b) then BlockState(InSegreg, k.size, 0, 0) else BlockState(InEmpty, 0, 0, 0)
  }

  /** After caches are cleared and the heap swept: marked blocks are listed by size, the others are empty. */
  ghost function Sweep(s: Small): Small {
    Small(seq(|s.blocks|, b requires 0 <= b < |s.blocks| => Swept(s.blocks[b], b, s.marks)), s.marks, s.marks, map[])
  }

  lemma SweepEstablishes(s: Small)
    requires MarksOk(s)
    ensures Inv(Sweep(s))
  {
    var s' := Sweep(s);
    forall b | 0 <= b < |s'.blocks| ensures BlockOk(s'.blocks[b], b, s'.marks, s'.used) {
      forall i: nat | Slot(b, i) in s.marks ensures SizeOk(s.blocks[b].size) && i < Starts(s.blocks[b].size) {
        assert Slot(b, i).block == b;
      }
    }
  }

  /** Between a sweep and a NULL every mark can be read by the next sweep, and after the NULL as well. */
  lemma InvMarksOk(s: Small)
    requires Inv(s)
    ensures MarksOk(s) && MarksOk(Fill(s))
  {
    forall x | x in s.marks
      ensures x.block < |s.blocks| && SizeOk(s.blocks[x.block].size) && x.index < Starts(s.blocks[x.block].size)
    {
      assert BlockOk(s.blocks[x.block], x.block, s.marks, s.used) && x == Slot(x.block, x.index);
    }
  }

  // ----- Who has a block -----

  predicate Busy(pc: Pc, b: nat) { (pc.Scanning? || pc.Found?) && pc.block == b }

  /** No two threads ever work on the same block, so no slider is advanced by two threads. */
  lemma ExclusiveBlocks(s: Small, t: nat, u: nat, b: nat)
    requires Inv(s) && Busy(PcOf(s, t), b) && Busy(PcOf(s, u), b)
    ensures t == u
  {
    assert PcOk(s, t) && PcOk(s, u);
  }

  // ----- Slots handed out -----

  function Handed(s: Small, step: Step): set<Slot>
    requires Enabled(s, step)
  {
    if step.Finish? then {Slot(PcOf(s, step.t).block, s.blocks[PcOf(s, step.t).block].pos)} else {}
  }

  /** The slot a thread leaves with was neither a survivor nor handed out before. */
  lemma HandedIsNew(s: Small, step: Step)
    requires Inv(s) && Enabled(s, step)
    ensures Handed(s, step) !! s.used
    ensures Apply(s, step).used == s.used + Handed(s, step)
    ensures forall x :: x in Handed(s, step) ==>
      SizeOk(s.blocks[x.block].size) && x.index < Slots(s.blocks[x.block].size)
  {
    if step.Finish? {
      var b := PcOf(s, step.t).block;
      assert PcOk(s, step.t) && BlockOk(s.blocks[b], b, s.marks, s.used);
    }
  }

  ghost predicate IsRun(s: Small, steps: seq<Step>)
    decreases |steps|
  {
    steps == [] || (Enabled(s, steps[0]) && IsRun(Apply(s, steps[0]), steps[1..]))
  }

  ghost function Final(s: Small, steps: seq<Step>): Small
    requires IsRun(s, steps)
    decreases |steps|
  {
    if steps == [] then s else Final(Apply(s, steps[0]), steps[1..])
  }

  /** The slots handed out over a run, in order. */
  ghost function Outputs(s: Small, steps: seq<Step>): seq<Slot>
    requires IsRun(s, steps)
    decreases |steps|
  {
    if steps == [] then []
    else
      var rest := Outputs(Apply(s, steps[0]), steps[1..]);
      if steps[0].Finish? then [Slot(PcOf(s, steps[0].t).block, s.blocks[PcOf(s, steps[0].t).block].pos)] + rest
      else rest
  }

  /** Over any interleaving: no slot is handed out twice, and none that was used at the start. */
  lemma {:induction false} RunHandsOutFreshSlots(s: Small, steps: seq<Step>)
    requires Inv(s) && IsRun(s, steps)
    ensures Inv(Final(s, steps))
    ensures forall x :: x in Outputs(s, steps) ==> x !in s.used
    ensures forall i, j :: 0 <= i < j < |Outputs(s, steps)| ==> Outputs(s, steps)[i] != Outputs(s, steps)[j]
    ensures forall x :: x in Final(s, steps).used <==> x in s.used || x in Outputs(s, steps)
    decreases |steps|
  {
    if steps != [] {
      StepKeeps(s, steps[0]);
      HandedIsNew(s, steps[0]);
      RunHandsOutFreshSlots(Apply(s, steps[0]), steps[1..]);
    }
  }

  lemma {:induction false} RunOn(s: Small, a: seq<Step>, b: seq<Step>)
    requires IsRun(s, a) && IsRun(Final(s, a), b)
    ensures IsRun(s, a + b) && Final(s, a + b) == Final(Final(s, a), b)
    ensures Outputs(s, a + b) == Outputs(s, a) + Outputs(Final(s, a), b)
    decreases |a|
  {
    if a == [] {
      assert a + b == b;
    } else {
      RunOn(Apply(s, a[0]), a[1..], b);
      assert (a + b)[0] == a[0] && (a + b)[1..] == a[1..] + b;
    }
  }

  /** A block with a slot in use keeps its size. */
  lemma {:induction false} SizeIsKept(s: Small, steps: seq<Step>, x: Slot)
    requires Inv(s) && IsRun(s, steps) && x in s.used
    ensures x.block < |s.blocks| == |Final(s, steps).blocks| && Final(s, steps).blocks[x.block].size == s.blocks[x.block].size
    decreases |steps|
  {
    if steps != [] {
      var s' := Apply(s, steps[0]);
      StepKeeps(s, steps[0]);
      HandedIsNew(s, steps[0]);
      assert BlockOk(s.blocks[x.block], x.block, s.marks, s.used) && x == Slot(x.block, x.index);
      SizeIsKept(s', steps[1..], x);
    }
  }

  ghost predicate AllBy(steps: seq<Step>, t: nat) { forall i :: 0 <= i < |steps| ==> steps[i].t == t }

  /** Thread `t` alone takes `s` to `s'` and is handed `out` on the way. */
  ghost predicate Ran(s: Small, t: nat, s': Small, out: seq<Slot>) {
    exists steps :: IsRun(s, steps) && AllBy(steps, t) && Final(s, steps) == s' && Outputs(s, steps) == out
  }

  /** A run of `t` that hands out nothing. */
  ghost predicate Looked(s: Small, t: nat, s': Small) { Ran(s, t, s', []) && s'.used == s.used }

  lemma LookedNone(s: Small, t: nat)
    ensures Looked(s, t, s)
  {
    assert IsRun(s, []) && Final(s, []) == s && Outputs(s, []) == [] && AllBy([], t);
  }

  lemma LookedStep(s: Small, step: Step)
    requires Enabled(s, step) && !step.Finish?
    ensures Looked(s, step.t, Apply(s, step))
  {
    var (steps, s') := ([step], Apply(s, step));
    assert steps[1..] == [] && IsRun(s', []) && Final(s', []) == s' && Outputs(s', []) == [];
    assert IsRun(s, steps) && AllBy(steps, step.t) && Final(s, steps) == s';
  }

  lemma LookedOn(s: Small, t: nat, s1: Small, s2: Small)
    requires Looked(s, t, s1) && Looked(s1, t, s2)
    ensures Looked(s, t, s2)
  {
    RanOn(s, t, s1, s2, []);
  }

  /** The last step of an allocation ends the run that led up to it. */
  lemma RanFinish(s: Small, t: nat, s1: Small)
    requires Looked(s, t, s1) && Enabled(s1, Finish(t))
    ensures Ran(s, t, Apply(s1, Finish(t)), [Slot(PcOf(s1, t).block, s1.blocks[PcOf(s1, t).block].pos)])
  {
    var (steps, s') := ([Finish(t)], Apply(s1, Finish(t)));
    assert steps[1..] == [] && IsRun(s', []) && Final(s', []) == s' && Outputs(s', []) == [];
    assert IsRun(s1, steps) && AllBy(steps, t) && Final(s1, steps) == s';
    RanOn(s, t, s1, s', Outputs(s1, steps));
  }

  lemma RanOn(s: Small, t: nat, s1: Small, s2: Small, out: seq<Slot>)
    requires Ran(s, t, s1, []) && Ran(s1, t, s2, out)
    ensures Ran(s, t, s2, out)
  {
    var p :| IsRun(s, p) && AllBy(p, t) && Final(s, p) == s1 && Outputs(s, p) == [];
    var q :| IsRun(s1, q) && AllBy(q, t) && Final(s1, q) == s2 && Outputs(s1, q) == out;
    RunOn(s, p, q);
    assert AllBy(p + q, t) && [] + out == out;
  }

  /** A block with a slot in use keeps its size over the whole run. */
  lemma RanKeepsSizes(s: Small, t: nat, s': Small, out: seq<Slot>)
    requires Inv(s) && Ran(s, t, s', out)
    ensures |s'.blocks| == |s.blocks| && SizesKept(s, s')
  {
    var steps :| IsRun(s, steps) && AllBy(steps, t) && Final(s, steps) == s' && Outputs(s, steps) == out;
    KeepsCount(s, steps);
    forall x | x in s.used ensures x.block < |s.blocks| && s'.blocks[x.block].size == s.blocks[x.block].size {
      SizeIsKept(s, steps, x);
    }
  }

  ghost predicate SizesKept(s: Small, s': Small) {
    forall x :: x in s.used ==>
      x.block < |s.blocks| && x.block < |s'.blocks| && s'.blocks[x.block].size == s.blocks[x.block].size
  }

  // ----- Addresses -----

  function SlotAddr(start: nat, b: nat, size: nat, i: nat): nat {
    start + BLOCK_SIZE * b + BLOCK_HEADER_SIZE + Align(size) * i
  }

  /** A slot lies inside the object area of its block. */
  lemma SlotInBlock(start: nat, b: nat, size: nat, i: nat)
    requires SizeOk(size) && i < Slots(size)
    ensures start + BLOCK_SIZE * b + BLOCK_HEADER_SIZE <= SlotAddr(start, b, size, i)
    ensures SlotAddr(start, b, size, i) + Align(size) <= start + BLOCK_SIZE * (b + 1)
  {
    WholePart(OBJECT_AREA, Align(size), i);
  }

  /** In a heap that starts at a word, slots are aligned words. */
  lemma SlotAligned(start: nat, b: nat, size: nat, i: nat)
    ensures start % 8 == 0 ==> SlotAddr(start, b, size, i) % 8 == 0
  {
    var k := MulOfEights(Align(size), i);
    assert SlotAddr(start, b, size, i) == start + 8 * (512 * b + 10 + k);
  }

  /** A slot, whole or partial, begins inside the object area exactly when its index is below `Starts`. */
  lemma StartsInBlock(start: nat, b: nat, size: nat, i: nat)
    requires SizeOk(size)
    ensures i < Starts(size) <==> SlotAddr(start, b, size, i) < start + BLOCK_SIZE * (b + 1)
  {
    var (d, q) := (Align(size), Slots(size));
    DivBounds(OBJECT_AREA, d);
    MulNext(d, q);
    if i <= q { MulLe(d, i, q); } else { MulLe(d, q + 1, i); }
    if i < q { MulLe(d, i + 1, q); MulNext(d, i); }
  }

  /** Byte `a` belongs to slot `i` of block `b`: the partial slot ends with its block. */
  predicate InSlot(start: nat, b: nat, size: nat, i: nat, a: nat) {
    SlotAddr(start, b, size, i) <= a < SlotAddr(start, b, size, i) + Align(size) && a < start + BLOCK_SIZE * (b + 1)
  }

  /** A byte belongs to one slot only. */
  lemma OneSlot(start: nat, b: nat, size: nat, i: nat, c: nat, size': nat, j: nat, a: nat)
    requires InSlot(start, b, size, i, a) && InSlot(start, c, size', j, a) && (b == c ==> size == size')
    ensures b == c && i == j
  {
    InItsBlock(start, b, size, i, a);
    InItsBlock(start, c, size', j, a);
    assert b == c;
    MulOne(Align(size), i, j);
    MulOne(Align(size), j, i);
  }

  /** A byte of a slot lies in the slot's block. */
  lemma InItsBlock(start: nat, b: nat, size: nat, i: nat, a: nat)
    requires InSlot(start, b, size, i, a)
    ensures BLOCK_SIZE * b <= a - start < BLOCK_SIZE * b + BLOCK_SIZE
  {
    MulLe(Align(size), 0, i);
  }

  lemma MulOne(d: nat, i: nat, j: nat)
    ensures i < j ==> d * i + d <= d * j
  {
    if i < j { MulLe(d, i + 1, j); MulNext(d, i); }
  }

  /** Two used slots of a reachable heap never share a byte, partial ones that survived included. */
  lemma UsedSlotsDisjoint(s: Small, start: nat, x: Slot, y: Slot, a: nat)
    requires Inv(s) && x in s.used && y in s.used
    ensures x.block < |s.blocks| && y.block < |s.blocks|
    ensures
      InSlot(start, x.block, s.blocks[x.block].size, x.index, a) && InSlot(start, y.block, s.blocks[y.block].size, y.index, a)
      ==> x == y
  {
    if InSlot(start, x.block, s.blocks[x.block].size, x.index, a) && InSlot(start, y.block, s.blocks[y.block].size, y.index, a) {
      OneSlot(start, x.block, s.blocks[x.block].size, x.index, y.block, s.blocks[y.block].size, y.index, a);
    }
  }

  /** No byte of `res..res + n` belongs to a slot in use. */
  ghost predicate Apart(start: nat, s: Small, res: nat, n: nat) {
    forall x, a: nat :: x in s.used && x.block < |s.blocks| && InSlot(start, x.block, s.blocks[x.block].size, x.index, a) ==>
      !(res <= a < res + n)
  }

  /** What a thread is handed at the end of a run is apart from everything that was in use. */
  lemma RanGivesFresh(s: Small, t: nat, s1: Small, s': Small, y: Slot, start: nat)
    requires Inv(s) && Looked(s, t, s1) && Ran(s1, t, s', [y])
    ensures Ran(s, t, s', [y]) && SizesKept(s, s')
    ensures y.block < |s'.blocks| == |s.blocks| && SizeOk(s'.blocks[y.block].size)
    ensures y.index < Slots(s'.blocks[y.block].size) ==>
      Apart(start, s, SlotAddr(start, y.block, s'.blocks[y.block].size, y.index), Align(s'.blocks[y.block].size))
  {
    RanOn(s, t, s1, s', [y]);
    var steps :| IsRun(s, steps) && AllBy(steps, t) && Final(s, steps) == s' && Outputs(s, steps) == [y];
    RunHandsOutFreshSlots(s, steps);
    RanKeepsSizes(s, t, s', [y]);
    assert y in Outputs(s, steps);
    UsedIsSlot(s', y);
    var size := s'.blocks[y.block].size;
    if y.index < Slots(size) {
      SlotInBlock(start, y.block, size, y.index);
      forall x, a: nat | x in s.used && x.block < |s.blocks| && InSlot(start, x.block, s.blocks[x.block].size, x.index, a)
        ensures !(SlotAddr(start, y.block, size, y.index) <= a < SlotAddr(start, y.block, size, y.index) + Align(size))
      {
        UsedSlotsDisjoint(s', start, x, y, a);
      }
    }
  }

  lemma {:induction false} KeepsCount(s: Small, steps: seq<Step>)
    requires IsRun(s, steps)
    ensures |Final(s, steps).blocks| == |s.blocks|
    decreases |steps|
  {
    if steps != [] { KeepsCount(Apply(s, steps[0]), steps[1..]); }
  }

  /** A used slot begins inside its block, and it is whole unless it is a survivor not passed yet. */
  lemma UsedIsSlot(s: Small, x: Slot)
    requires Inv(s) && x in s.used
    ensures x.block < |s.blocks| && SizeOk(s.blocks[x.block].size) && x.index < Starts(s.blocks[x.block].size)
    ensures x !in s.marks ==> x.index < Slots(s.blocks[x.block].size)
  {
    var b := x.block;
    assert BlockOk(s.blocks[b], b, s.marks, s.used);
    assert x == Slot(b, x.index);
  }

  // ----- What NULL means -----

  /** Thread `t` is about to return NULL. */
  ghost predicate Fails(s: Small, t: nat) {
    PcOf(s, t).NeedEmpty? && forall b :: 0 <= b < |s.blocks| ==> s.blocks[b].home != InEmpty
  }

  /** Every slot of every block of the size is used, except in blocks that other threads have. */
  lemma NullMeansExhausted(s: Small, t: nat, b: nat, i: nat)
    requires Inv(s) && Fails(s, t)
    requires b < |s.blocks| && s.blocks[b].size == PcOf(s, t).size && SizeOk(s.blocks[b].size)
    requires i < Slots(s.blocks[b].size)
    ensures Slot(b, i) in s.used || (exists u: nat :: u != t && OwnedBy(s.blocks[b].home, u))
  {
    assert PcOk(s, t) && HomeOk(s, b) && BlockOk(s.blocks[b], b, s.marks, s.used);
    if s.blocks[b].home.Cached? || s.blocks[b].home.Held? {
      assert OwnedBy(s.blocks[b].home, s.blocks[b].home.tid);
    }
  }

  /** With one mutator the heap of that size is full. */
  lemma SingleMutatorNull(s: Small, t: nat, b: nat, i: nat)
    requires Inv(s) && Fails(s, t)
    requires OnlyOwner(s, t)
    requires b < |s.blocks| && s.blocks[b].size == PcOf(s, t).size && SizeOk(s.blocks[b].size)
    requires i < Slots(s.blocks[b].size)
    ensures Slot(b, i) in s.used
  {
    NullMeansExhausted(s, t, b, i);
  }

  /** No thread but `t` has a block. */
  ghost predicate OnlyOwner(s: Small, t: nat) {
    forall u: nat, c :: u != t && 0 <= c < |s.blocks| ==> !OwnedBy(s.blocks[c].home, u)
  }

  lemma {:induction false} OneThreadOwns(s: Small, steps: seq<Step>, t: nat)
    requires OnlyOwner(s, t) && IsRun(s, steps) && AllBy(steps, t)
    ensures OnlyOwner(Final(s, steps), t)
    decreases |steps|
  {
    if steps != [] {
      var s' := Apply(s, steps[0]);
      assert steps[0].t == t && OnlyOwner(s', t);
      forall i | 0 <= i < |steps[1..]| ensures steps[1..][i].t == t { assert steps[i + 1].t == t; }
      OneThreadOwns(s', steps[1..], t);
    }
  }

  /**
   From a sweep to the first NULL of the only mutator: every whole slot of every
   block of the size that ran out had survived the sweep or has been handed out.
   */
  lemma NullMeansHandedOut(s: Small, steps: seq<Step>, t: nat, b: nat, i: nat)
    requires MarksOk(s) && IsRun(Sweep(s), steps) && AllBy(steps, t)
    requires var s' := Final(Sweep(s), steps);
      Fails(s', t) && b < |s'.blocks| && s'.blocks[b].size == PcOf(s', t).size && SizeOk(PcOf(s', t).size)
      && i < Slots(PcOf(s', t).size)
    ensures Slot(b, i) in s.marks || Slot(b, i) in Outputs(Sweep(s), steps)
  {
    SweepEstablishes(s);
    RunHandsOutFreshSlots(Sweep(s), steps);
    OneThreadOwns(Sweep(s), steps, t);
    SingleMutatorNull(Final(Sweep(s), steps), t, b, i);
  }

  /** The failing call then clears the bitmaps of the blocks on the segregated lists. */
  ghost function Fill(s: Small): Small {
    s.(marks := set x | x in s.marks && !(x.block < |s.blocks| && s.blocks[x.block].home == InSegreg))
  }

  /** Thread `t` alone ran from `s` to the NULL, and its call has returned. */
  ghost predicate RanToNull(s: Small, t: nat, s': Small) {
    exists s1 :: Looked(s, t, s1) && Fails(s1, t) && s' == Fill(s1).(pcs := s1.pcs[t := Idle])
  }

  ghost predicate SameBlockSizes(s: Small, s': Small) {
    |s'.blocks| == |s.blocks| && forall b :: 0 <= b < |s.blocks| ==> s'.blocks[b].size == s.blocks[b].size
  }

  /** A run that comes to a NULL has taken no empty block, so no block changes its size. */
  lemma {:induction false} NullKeepsSizes(s: Small, t: nat, steps: seq<Step>)
    requires IsRun(s, steps) && AllBy(steps, t) && Outputs(s, steps) == [] && PcOf(Final(s, steps), t).NeedEmpty?
    ensures SameBlockSizes(s, Final(s, steps))
    decreases |steps|
  {
    if steps != [] {
      var (step, rest) := (steps[0], steps[1..]);
      assert step.t == t;
      forall i | 0 <= i < |rest| ensures rest[i].t == t { assert rest[i] == steps[i + 1]; }
      NullKeepsSizes(Apply(s, step), t, rest);
    }
  }

  lemma RanToNullKeepsSizes(s: Small, t: nat, s': Small)
    requires RanToNull(s, t, s')
    ensures SameBlockSizes(s, s')
  {
    var s1 :| Looked(s, t, s1) && Fails(s1, t) && s' == Fill(s1).(pcs := s1.pcs[t := Idle]);
    var steps :| IsRun(s, steps) && AllBy(steps, t) && Final(s, steps) == s1 && Outputs(s, steps) == [];
    NullKeepsSizes(s, t, steps);
  }

  /** Some thread has the block. */
  predicate HasOwner(h: Home) { h.Cached? || h.Held? }

  /** The partial slot of a block no thread can reach any more. */
  predicate LeftOver(s: Small, x: Slot) {
    && x.block < |s.blocks| && s.blocks[x.block].home.Retired? && SizeOk(s.blocks[x.block].size)
    && x.index >= Slots(s.blocks[x.block].size)
  }

  /**
   What is left marked after a NULL is ahead of the slider in a block some thread
   still has, or is the partial slot of a block that was used up.
   */
  lemma FillLeaves(s: Small, x: Slot)
    requires Inv(s)
    ensures x in Fill(s).marks <==>
      x in s.marks && x.block < |s.blocks| && (HasOwner(s.blocks[x.block].home) || LeftOver(s, x))
  {
    if x in s.marks {
      if x.block < |s.blocks| {
        var b := x.block;
        assert x == Slot(b, x.index);
        assert BlockOk(s.blocks[b], b, s.marks, s.used);
      }
    }
  }

  /**
   The marks are all clear for the next collection exactly when no thread keeps a
   block with marks ahead and no used-up block has its partial slot marked.
   */
  lemma FillClearsAllIff(s: Small)
    requires Inv(s)
    ensures Fill(s).marks == {} <==>
      (forall x :: x in s.marks && x.block < |s.blocks| ==> !HasOwner(s.blocks[x.block].home) && !LeftOver(s, x))
  {
    forall x ensures x in Fill(s).marks <==>
      x in s.marks && x.block < |s.blocks| && (HasOwner(s.blocks[x.block].home) || LeftOver(s, x))
    {
      FillLeaves(s, x);
    }
  }

  /**
   A thread that goes on allocating before the collection is safe exactly when no
   block on the segregated lists has a mark: otherwise a survivor's slot looks
   free again.
   */
  lemma FillKeepsInvIff(s: Small)
    requires Inv(s)
    ensures Inv(Fill(s)) <==> (forall x :: x in s.marks ==> s.blocks[x.block].home != InSegreg)
  {
    if x :| x in s.marks && s.blocks[x.block].home == InSegreg {
      var b := x.block;
      assert BlockOk(s.blocks[b], b, s.marks, s.used) && x == Slot(b, x.index);
      assert !BlockOk(Fill(s).blocks[b], b, Fill(s).marks, s.used);
    } else {
      assert Fill(s) == s;
    }
  }
}
