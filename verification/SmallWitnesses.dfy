/**
 Runs of the small-object allocator that end with marks still set or wrongly
 cleared, and what such marks do to the next collection.
 */
module SmallWitnesses {
  import T = BlockTrees
  import opened SmallMachine
  import opened SmallRuns
  import opened Objects
  import opened Reachability
  import opened Collector

  lemma RunStep(s: Small, step: Step, steps: seq<Step>, s': Small)
    requires Enabled(s, step) && Apply(s, step) == s'
    ensures IsRun(s, [step] + steps) <==> IsRun(s', steps)
    ensures IsRun(s', steps) ==>
      && Final(s, [step] + steps) == Final(s', steps)
      && Outputs(s, [step] + steps) == (if step.Finish? then [Slot(PcOf(s, step.t).block, s.blocks[PcOf(s, step.t).block].pos)] else [])
                                       + Outputs(s', steps)
  {
  }

  /** One block for objects of 8 bytes, of which only the second slot survived. */
  ghost function OneSurvivor(): Small {
    Small([BlockState(Retired, 8, 0, 0)], {Slot(0, 1)}, {}, map[])
  }

  lemma SweptSurvivor()
    ensures MarksOk(OneSurvivor())
    ensures Sweep(OneSurvivor()) == Small([BlockState(InSegreg, 8, 0, 0)], {Slot(0, 1)}, {Slot(0, 1)}, map[])
  {
  }

  /** A request for another size fails while a block with a survivor is listed: clearing its mark breaks the invariant. */
  lemma FillBreaksInv()
    ensures
      var (s, steps) := (Sweep(OneSurvivor()), [Start(0, 16, NoBlock), NoSegreg(0)]);
      && IsRun(s, steps) && Fails(Final(s, steps), 0) && Inv(Final(s, steps)) && !Inv(Fill(Final(s, steps)))
  {
  }

  /** The first slot was handed out and the block is in the cache, the survivor ahead of the slider. */
  ghost function OneCached(): Small {
    Small([BlockState(Cached(0), 8, 1, 1)], {Slot(0, 1)}, {Slot(0, 1), Slot(0, 0)}, map[0 := Idle])
  }

  const CACHE := [Start(0, 8, NoBlock), TakeSegreg(0, 0), Hit(0), Finish(0)]

  lemma CacheIt()
    ensures IsRun(Sweep(OneSurvivor()), CACHE) && Final(Sweep(OneSurvivor()), CACHE) == OneCached()
    ensures Outputs(Sweep(OneSurvivor()), CACHE) == [Slot(0, 0)]
  {
    SweptSurvivor();
    SlotsPositive(8);
    var s := Sweep(OneSurvivor());
    var s1 := s.(pcs := map[0 := NeedBlock(8)]);
    var s2 := s.(blocks := [BlockState(Held(0), 8, 0, 0)], pcs := map[0 := Scanning(8, 0, 0, false)]);
    var s3 := s2.(pcs := map[0 := Found(8, 0, false)]);
    FinishFirst(s3);
    RunStep(s3, Finish(0), [], OneCached());
    RunStep(s2, Hit(0), [Finish(0)], s3);
    RunStep(s1, TakeSegreg(0, 0), [Hit(0), Finish(0)], s2);
    RunStep(s, Start(0, 8, NoBlock), [TakeSegreg(0, 0), Hit(0), Finish(0)], s1);
  }

  lemma FinishFirst(s: Small)
    requires s == Small([BlockState(Held(0), 8, 0, 0)], {Slot(0, 1)}, {Slot(0, 1)}, map[0 := Found(8, 0, false)])
    ensures Enabled(s, Finish(0)) && Apply(s, Finish(0)) == OneCached()
  {
  }

  const OTHER := [Start(0, 16, NoBlock), NoSegreg(0)]

  /** A request fails while a block with a survivor ahead of the slider is cached: that mark stays. */
  lemma FillLeavesMark()
    ensures
      var (s, steps) := (Sweep(OneSurvivor()), CACHE + OTHER);
      && IsRun(s, steps) && Outputs(s, steps) == [Slot(0, 0)]
      && Fails(Final(s, steps), 0) && Fill(Final(s, steps)).marks == {Slot(0, 1)}
  {
    var s5 := OneCached().(pcs := map[0 := NeedBlock(16)]);
    var s6 := OneCached().(pcs := map[0 := NeedEmpty(16)]);
    assert IsRun(s6, []) && Final(s6, []) == s6 && Outputs(s6, []) == [];
    RunStep(s5, NoSegreg(0), [], s6);
    RunStep(OneCached(), Start(0, 16, NoBlock), [NoSegreg(0)], s5);
    CacheIt();
    RunOn(Sweep(OneSurvivor()), CACHE, OTHER);
  }

  // ----- The partial slot -----

  /** One block for objects of 2000 bytes, of which only the partial slot at its end is marked. */
  ghost function OnlyTail(): Small { Small([BlockState(Retired, 2000, 0, 0)], {Slot(0, 2)}, {}, map[]) }

  /** The same block after the sweep, with its first `n` slots handed out and thread 0 at `pc`. */
  ghost function Handing(home: Home, n: nat, front: nat, used: set<Slot>, pc: Pc): Small {
    Small([BlockState(home, 2000, n, front)], {Slot(0, 2)}, {Slot(0, 2)} + used, map[0 := pc])
  }

  lemma TwoSlots()
    ensures Slots(2000) == 2 && Starts(2000) == 3
  {
  }

  lemma SweptTail()
    ensures MarksOk(OnlyTail())
    ensures Sweep(OnlyTail()) == Small([BlockState(InSegreg, 2000, 0, 0)], {Slot(0, 2)}, {Slot(0, 2)}, map[])
  {
    TwoSlots();
    assert Slot(0, 2) in OnlyTail().marks;
  }

  const FIRST := [Start(0, 2000, NoBlock), TakeSegreg(0, 0), Hit(0), Finish(0)]

  lemma HandFirst()
    ensures IsRun(Sweep(OnlyTail()), FIRST)
    ensures Final(Sweep(OnlyTail()), FIRST) == Handing(Cached(0), 1, 1, {Slot(0, 0)}, Idle)
  {
    TwoSlots();
    SweptTail();
    var s := Sweep(OnlyTail());
    var s1 := s.(pcs := map[0 := NeedBlock(2000)]);
    var s2 := Handing(Held(0), 0, 0, {}, Scanning(2000, 0, 0, false));
    var s3 := Handing(Held(0), 0, 0, {}, Found(2000, 0, false));
    var s4 := Handing(Cached(0), 1, 1, {Slot(0, 0)}, Idle);
    RunStep(s3, Finish(0), [], s4);
    RunStep(s2, Hit(0), [Finish(0)], s3);
    RunStep(s1, TakeSegreg(0, 0), [Hit(0), Finish(0)], s2);
    RunStep(s, Start(0, 2000, NoBlock), [TakeSegreg(0, 0), Hit(0), Finish(0)], s1);
  }

  const SECOND := [Start(0, 2000, SomeBlock(0)), Hit(0), Finish(0)]

  lemma HandSecond()
    ensures IsRun(Handing(Cached(0), 1, 1, {Slot(0, 0)}, Idle), SECOND)
    ensures Final(Handing(Cached(0), 1, 1, {Slot(0, 0)}, Idle), SECOND)
      == Handing(Cached(0), 2, 2, {Slot(0, 0), Slot(0, 1)}, Idle)
  {
    TwoSlots();
    var s := Handing(Cached(0), 1, 1, {Slot(0, 0)}, Idle);
    var s1 := Handing(Cached(0), 1, 1, {Slot(0, 0)}, Scanning(2000, 0, 1, true));
    var s2 := Handing(Cached(0), 1, 1, {Slot(0, 0)}, Found(2000, 0, true));
    var s3 := Handing(Cached(0), 2, 2, {Slot(0, 0), Slot(0, 1)}, Idle);
    RunStep(s2, Finish(0), [], s3);
    RunStep(s1, Hit(0), [Finish(0)], s2);
    RunStep(s, Start(0, 2000, SomeBlock(0)), [Hit(0), Finish(0)], s1);
  }

  const THIRD := [Start(0, 2000, SomeBlock(0)), Miss(0), NoSegreg(0)]

  lemma ThirdFails()
    ensures IsRun(Handing(Cached(0), 2, 2, {Slot(0, 0), Slot(0, 1)}, Idle), THIRD)
    ensures Final(Handing(Cached(0), 2, 2, {Slot(0, 0), Slot(0, 1)}, Idle), THIRD)
      == Handing(Retired, 2, 2, {Slot(0, 0), Slot(0, 1)}, NeedEmpty(2000))
  {
    TwoSlots();
    var s := Handing(Cached(0), 2, 2, {Slot(0, 0), Slot(0, 1)}, Idle);
    var s1 := Handing(Cached(0), 2, 2, {Slot(0, 0), Slot(0, 1)}, Scanning(2000, 0, 2, true));
    var s2 := Handing(Retired, 2, 2, {Slot(0, 0), Slot(0, 1)}, NeedBlock(2000));
    var s3 := Handing(Retired, 2, 2, {Slot(0, 0), Slot(0, 1)}, NeedEmpty(2000));
    RunStep(s2, NoSegreg(0), [], s3);
    RunStep(s1, Miss(0), [NoSegreg(0)], s2);
    RunStep(s, Start(0, 2000, SomeBlock(0)), [Miss(0), NoSegreg(0)], s1);
  }

  /** The block is used up, no thread has it, and the mark of its partial slot stays. */
  lemma FillLeavesTail()
    ensures var (s, steps) := (Sweep(OnlyTail()), FIRST + SECOND + THIRD);
      && IsRun(s, steps) && Fails(Final(s, steps), 0) && Fill(Final(s, steps)).marks == {Slot(0, 2)}
      && Final(s, steps).blocks == [BlockState(Retired, 2000, 2, 2)]
  {
    HandFirst();
    HandSecond();
    ThirdFails();
    RunOn(Sweep(OnlyTail()), FIRST, SECOND);
    RunOn(Sweep(OnlyTail()), FIRST + SECOND, THIRD);
  }

  // ----- Addresses -----

  /** One small block at 4096 for objects of `size` bytes, and an empty large heap. */
  function OneBlock(size: nat): Layout { Layout(4096, [size], 16384, 20480, T.Empty) }

  const SURVIVOR: nat := 4184
  const YOUNGER: nat := 4176

  /** The survivor points to the object that was handed out after the sweep. */
  function Points(a: nat): nat { if a == SURVIVOR then YOUNGER else 0 }

  lemma TwoObjects()
    ensures SlotAddr(4096, 0, 8, 1) == SURVIVOR && SlotAddr(4096, 0, 8, 0) == YOUNGER
    ensures GetObject(OneBlock(8), SURVIVOR) == T.Some(SURVIVOR) && GetObject(OneBlock(8), YOUNGER) == T.Some(YOUNGER)
    ensures ObjectSize(OneBlock(8), SURVIVOR) == 8
  {
  }

  /**
   The two slots of FillLeavesMark: with the survivor's mark still set, the younger
   object is reachable and yet not marked.
   */
  lemma StaleMarkHidesObject(m: set<nat>)
    requires MarkedAround(OneBlock(8), Points, [SURVIVOR], {SURVIVOR}, m)
    ensures Reachable(OneBlock(8), Points, [SURVIVOR], {}, YOUNGER) && YOUNGER !in m
  {
    var (l, roots) := (OneBlock(8), [SURVIVOR]);
    TwoObjects();
    assert IsRoot(l, roots, SURVIVOR) by { assert GetObject(l, roots[0]) == T.Some(SURVIVOR); }
    RootReachable(l, Points, roots, {}, SURVIVOR);
    assert Child(l, Points, SURVIVOR, 0) == T.Some(YOUNGER);
    EdgeReachable(l, Points, roots, {}, SURVIVOR, YOUNGER);
    assert forall r :: IsRoot(l, roots, r) ==> r == SURVIVOR;
    ReachedFromOutside(l, Points, roots, {SURVIVOR}, YOUNGER);
  }

  /** What is reached is reached from a root that is not to be avoided. */
  lemma ReachedFromOutside(l: Layout, mem: nat -> nat, roots: seq<nat>, avoid: set<nat>, o: nat)
    ensures Reachable(l, mem, roots, avoid, o) ==> exists r :: IsRoot(l, roots, r) && r !in avoid
  {
  }

  /**
   The address one past the last whole slot resolves to the partial slot: a pointer to
   the end of that object makes the mark of FillLeavesTail.
   */
  lemma TailResolves()
    ensures IsObject(OneBlock(2000), 8176) && !Whole(OneBlock(2000), 8176) && SlotOf(OneBlock(2000), 8176) == Slot(0, 2)
    ensures SlotAddr(4096, 0, 2000, 1) + 2000 == 8176
  {
  }
}
