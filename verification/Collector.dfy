/**
 One collection with the world stopped: caches cleared, mark, sweep of both heaps
 (service_thread_routine in mt-safety.c, sweep in sweep.c), and what it keeps.
 */
module Collector {
  import opened Config
  import T = BlockTrees
  import opened Sequences
  import opened SearchLaws
  import opened SweepLaws
  import opened LargeRuns
  import opened LargeHeap
  import opened SmallMachine
  import opened SmallRuns
  import opened SmallHeap
  import opened MarkStack
  import opened Objects
  import opened Reachability
  import opened Marking
  import opened Allocations

  /** No root and no word of a reachable object points into the left-over bytes at the end of a block. */
  ghost predicate NoTails(l: Layout, mem: nat -> nat, roots: seq<nat>) {
    && (forall p :: IsRoot(l, roots, p) ==> IsObject(l, p) && Whole(l, p))
    && (forall o, p :: Reachable(l, mem, roots, {}, o) && Edge(l, mem, o, p) ==> IsObject(l, p) && Whole(l, p))
  }

  lemma ReachableIsWhole(l: Layout, mem: nat -> nat, roots: seq<nat>, o: nat)
    requires NoTails(l, mem, roots) && Reachable(l, mem, roots, {}, o)
    ensures IsObject(l, o) && Whole(l, o)
  {
    var p :| IsPath(l, mem, roots, {}, p) && p[|p| - 1] == o;
    if |p| > 1 {
      var prefix := p[..|p| - 1];
      assert IsPath(l, mem, roots, {}, prefix) && prefix[|prefix| - 1] == p[|p| - 2];
      assert Reachable(l, mem, roots, {}, p[|p| - 2]) && Edge(l, mem, p[|p| - 2], o);
    }
  }

  /** `m` is what marking from `m0` marks: `m0` and everything the roots reach around it. */
  ghost predicate MarkedAround(l: Layout, mem: nat -> nat, roots: seq<nat>, m0: set<nat>, m: set<nat>) {
    forall o :: o in m <==> o in m0 || Reachable(l, mem, roots, m0, o)
  }

  ghost predicate ReachableSet(l: Layout, mem: nat -> nat, roots: seq<nat>, m: set<nat>) {
    forall o :: o in m <==> Reachable(l, mem, roots, {}, o)
  }

  /** Every reachable object is whole exactly when there is no pointer into a tail. */
  lemma NoTailsIff(l: Layout, mem: nat -> nat, roots: seq<nat>)
    requires LayoutOk(l)
    ensures NoTails(l, mem, roots) <==> (forall o :: Reachable(l, mem, roots, {}, o) ==> IsObject(l, o) && Whole(l, o))
  {
    if NoTails(l, mem, roots) {
      forall o | Reachable(l, mem, roots, {}, o) ensures IsObject(l, o) && Whole(l, o) { ReachableIsWhole(l, mem, roots, o); }
    }
    forall p | IsRoot(l, roots, p) ensures Reachable(l, mem, roots, {}, p) { RootReachable(l, mem, roots, {}, p); }
    forall o, p | Reachable(l, mem, roots, {}, o) && Edge(l, mem, o, p) ensures Reachable(l, mem, roots, {}, p) {
      EdgeReachable(l, mem, roots, {}, o, p);
    }
  }

  // ----- What the sweep does with the marks -----

  /** The slots of the marked small objects. */
  ghost predicate SlotsOf(l: Layout, marked: set<nat>, slots: set<Slot>) {
    forall x :: x in slots <==> SlotIsObject(l, x) && ObjectOf(l, x) in marked
  }

  /** The blocks of the marked large objects. */
  ghost function BlocksOf(l: Layout, marked: set<nat>): set<T.Block> {
    set b | b in T.Blocks(l.occupied) && b.addr in marked
  }

  lemma BitsAreMarked(l: Layout, occupied: T.Tree, marks: set<Slot>)
    requires LayoutOk(l) && BitsOnObjects(l, marks)
    ensures SlotsOf(l, MarkedSet(l, occupied, marks), marks)
  {
    forall x ensures x in marks <==> SlotIsObject(l, x) && ObjectOf(l, x) in MarkedSet(l, occupied, marks) {
      if SlotIsObject(l, x) { ObjectsAreAll(l, ObjectOf(l, x)); }
    }
  }

  lemma FlagsAreMarked(l: Layout, occupied: T.Tree, marks: set<Slot>)
    requires LayoutOk(l) && Erase(occupied) == l.occupied
    ensures Survivors(occupied) == BlocksOf(l, MarkedSet(l, occupied, marks))
  {
    var m := MarkedSet(l, occupied, marks);
    EraseSpaced(occupied, l.largeStart, l.largeEnd, 0);
    forall b ensures b in Survivors(occupied) <==> b in BlocksOf(l, m) {
      SurvivorsAreMarked(occupied, l.largeStart, l.largeEnd, b);
      if b in T.Blocks(l.occupied) {
        BlockBounds(l.occupied, l.largeStart, l.largeEnd, 0, b);
        LargeInterior(l, b, b.addr);
        ObjectsAreAll(l, b.addr);
      }
    }
  }

  /** A tree whose flags are set exactly on the blocks that start in `m`. */
  function MarkBy(t: T.Tree, m: set<nat>): T.Tree {
    match t
    case Empty => T.Empty
    case Fork(n, b, l, r) => T.Fork(n, b.(isMarked := b.addr in m), MarkBy(l, m), MarkBy(r, m))
  }

  lemma {:induction false} FlagsMakeTree(t: T.Tree, m: set<nat>)
    requires forall b :: b in T.Blocks(t) ==> (b.isMarked <==> b.addr in m)
    ensures t == MarkBy(Erase(t), m)
  {
    if t.Fork? {
      FlagsMakeTree(t.left, m);
      FlagsMakeTree(t.right, m);
    }
  }

  /** The occupied tree is determined by the layout and the set of marked objects. */
  lemma MarkedTree(l: Layout, occupied: T.Tree, marks: set<Slot>)
    requires LayoutOk(l) && Erase(occupied) == l.occupied
    ensures occupied == MarkBy(l.occupied, MarkedSet(l, occupied, marks))
  {
    var m := MarkedSet(l, occupied, marks);
    EraseSpaced(occupied, l.largeStart, l.largeEnd, 0);
    forall b | b in T.Blocks(occupied) ensures b.isMarked <==> b.addr in m {
      SearchFindsStart(occupied, l.largeStart, l.largeEnd, b.addr, b);
      ErasedBlock(occupied, b);
      BlockBounds(occupied, l.largeStart, l.largeEnd, 0, b);
      LargeInterior(l, b.(isMarked := false), b.addr);
      ObjectsAreAll(l, b.addr);
    }
    FlagsMakeTree(occupied, m);
  }

  /** Marks on objects are marks the small sweep can read, and the other way round. */
  lemma ReadableMarks(l: Layout, s: Small)
    requires LayoutOk(l) && SameSizes(l, s)
    ensures BitsOnObjects(l, s.marks) <==> MarksOk(s)
  {
    forall x: Slot | x.block < |l.sizes| && SizeOk(l.sizes[x.block]) ensures SlotIsObject(l, x) <==> x.index < Starts(l.sizes[x.block]) {
      SlotIsObjectIff(l, x);
    }
  }

  /** Marking leaves the large heap in order. */
  lemma MarkedKeepsInv(s: Large, occupied': T.Tree, lo: nat, hi: nat, all: set<T.TreeNode>)
    requires LargeRuns.Inv(s, lo, hi, all) && Erase(occupied') == Erase(s.occupied)
    ensures LargeRuns.Inv(s.(occupied := occupied'), lo, hi, all)
  {
    EraseSpaced(s.occupied, lo, hi, 0);
    EraseSpaced(occupied', lo, hi, 0);
    EraseKeeps(s.occupied, 0);
    EraseKeeps(occupied', 0);
    forall x: nat | lo <= x < hi ensures T.Covers(s.free, x) <==> !T.Covers(occupied', x) {
      EraseKeeps(s.occupied, x);
      EraseKeeps(occupied', x);
    }
  }

  // ----- What the sweep leaves -----

  /**
   `l'` is the layout after the heap of layout `l` was swept with exactly `m`
   marked; `slots` are the slots then in use.
   */
  ghost predicate AfterSweep(l: Layout, l': Layout, slots: set<Slot>, m: set<nat>) {
    && LayoutOk(l) && LayoutOk(l')
    && l'.smallStart == l.smallStart && l'.largeStart == l.largeStart && l'.largeEnd == l.largeEnd
    && |l'.sizes| == |l.sizes|
    && (forall b :: 0 <= b < |l.sizes| ==> l'.sizes[b] == if HasMark(slots, b) then l.sizes[b] else 0)
    && SlotsOf(l, m, slots)
    && T.Blocks(l'.occupied) == BlocksOf(l, m)
  }

  ghost function Sizes(blocks: seq<BlockState>): seq<nat> {
    seq(|blocks|, b requires 0 <= b < |blocks| => blocks[b].size)
  }

  lemma HeadersAreSizes(start: nat, slider: seq<nat>, objSize: seq<nat>, blocks: seq<BlockState>)
    requires HeadersOk(start, slider, objSize, blocks)
    ensures objSize == Sizes(blocks)
  {
  }

  lemma {:induction false} UnmarkedErase(t: T.Tree)
    requires forall b :: b in T.Blocks(t) ==> !b.isMarked
    ensures Erase(t) == t
  {
    if t.Fork? {
      UnmarkedErase(t.left);
      UnmarkedErase(t.right);
    }
  }

  /** The two sweeps, with the repair or without, leave such a layout. */
  lemma SweptLayout(l: Layout, s: Small, large: Large, repaired: bool, m: set<nat>, all: set<T.TreeNode>)
    requires LayoutOk(l) && SameSizes(l, s) && SlotsOf(l, m, s.marks)
    requires LargeRuns.Inv(large, l.largeStart, l.largeEnd, all) && Survivors(large.occupied) == BlocksOf(l, m)
    ensures
      var sizes := Sizes(Sweep(s).blocks);
      var occupied := SweepWith(large, repaired).occupied;
      && T.Blocks(occupied) == BlocksOf(l, m)
      && AfterSweep(l, l.(sizes := sizes, occupied := Erase(occupied)), Sweep(s).used, m)
  {
    SweepKeepsOccupied(large, repaired, l.largeStart, l.largeEnd, all);
    var occupied := SweepWith(large, repaired).occupied;
    forall b | b in T.Blocks(occupied) ensures !b.isMarked { SurvivorsAligned(large.occupied, b); }
    UnmarkedErase(occupied);
  }

  // ----- The collection -----

  class Heap {
    const small: SmallAllocator
    const large: LargeAllocator
    const stack: Stack

    constructor (small: SmallAllocator, large: LargeAllocator, stack: Stack)
      ensures this.small == small && this.large == large && this.stack == stack
    {
      this.small, this.large, this.stack := small, large, stack;
    }

    /** The small allocator leaves the large heap alone. */
    method AllocateBesideLarge(size: nat) returns (res: nat, ghost slot: Slot)
      requires small.Valid() && SizeOk(size) && PcOf(small.st, ME).Idle? && small.start > 0 && large.Valid()
      modifies small`st, small`emptyHead, small`emptyList, small`segList
      modifies small.slider, small.objSize, small.next, small.segreg, small.cache, small.bits`marks, small.bits.bytes
      ensures large.Valid() && small.Layout() && (res != 0 ==> small.Valid())
      ensures PcOf(small.st, ME).Idle? && MarksOk(small.st)
      ensures Served(small.start, old(small.st), small.st, size, res, slot)
    {
      res, slot := small.AllocateSmallObject(size);
    }

    /** A small object, and that every address in it resolves to it. */
    method AllocateSmall(size: nat) returns (res: nat, ghost slot: Slot)
      requires small.Valid() && SizeOk(size) && PcOf(small.st, ME).Idle? && small.start > 0 && LayoutOk(Now()) && large.Valid()
      modifies small`st, small`emptyHead, small`emptyList, small`segList
      modifies small.slider, small.objSize, small.next, small.segreg, small.cache, small.bits`marks, small.bits.bytes
      ensures large.Valid() && small.Layout() && (res != 0 ==> small.Valid())
      ensures PcOf(small.st, ME).Idle? && MarksOk(small.st)
      ensures Served(small.start, old(small.st), small.st, size, res, slot)
      ensures LayoutOk(Now()) && (res != 0 ==> ResolvesWithin(Now(), res, Align(size)))
      ensures KeepsInUse(old(Now()), old(small.st.used), Now(), res, Align(size))
    {
      ghost var (l, s) := (Now(), small.st);
      res, slot := AllocateBesideLarge(size);
      if res != 0 { SmallResult(Now(), slot); }
      SmallKeepsInUse(l, small.objSize[..], s, small.st, size, res, slot);
      assert Now() == l.(sizes := small.objSize[..]);
    }

    /** The large allocator leaves the small heap alone. */
    method AllocateBesideSmall(size: nat, detach: bool) returns (res: nat)
      requires large.Valid() && size > 0 && small.Valid()
      modifies large`freeRoot, large`occupiedRoot, large`poolHead, large`free, large`occupied, large`pool, large.nodes
      ensures small.Valid() && LargeRuns.Inv(large.State(), large.start, large.end, large.nodes)
      ensures LargeServed(old(large.State()), large.State(), size, res)
      ensures large.Valid() <==> detach || !old(large.RootFits(Align(size))) || old(large.Childless())
    {
      LargeIsServed(large.State(), large.start, large.end, large.nodes, size);
      res := large.AllocateLargeObject(size, detach);
    }

    /** A large object, likewise. */
    method AllocateLarge(size: nat, detach: bool) returns (res: nat)
      requires large.Valid() && size > 0 && LayoutOk(Now()) && small.Valid()
      modifies large`freeRoot, large`occupiedRoot, large`poolHead, large`free, large`occupied, large`pool, large.nodes
      ensures small.Valid() && LayoutOk(Now()) && (res != 0 ==> ResolvesWithin(Now(), res, Align(size)))
      ensures LargeServed(old(large.State()), large.State(), size, res)
      ensures KeepsInUse(old(Now()), small.st.used, Now(), res, Align(size))
      ensures large.Valid() <==> detach || !old(large.RootFits(Align(size))) || old(large.Childless())
    {
      ghost var (l, s) := (Now(), large.State());
      res := AllocateBesideSmall(size, detach);
      EraseSpaced(large.occupied, large.start, large.end, 0);
      if res != 0 {
        AllocateGivesFreeBytes(s, large.start, large.end, large.nodes, size);
        LargeResult(Now(), large.occupied, T.Block(res, Align(size), false));
      }
      LargeKeepsInUse(l, small.st.used, s, large.State(), large.nodes, size, res);
      assert Now() == l.(occupied := Erase(large.occupied));
    }

    /**
     `allocate_new_object`: which allocator serves a request, and how.
     */
    method AllocateNewObject(size: nat, detach: bool) returns (res: nat, ghost slot: Slot)
      requires small.Valid() && PcOf(small.st, ME).Idle? && small.start > 0 && large.Valid() && LayoutOk(Now())
      modifies small`st, small`emptyHead, small`emptyList, small`segList
      modifies small.slider, small.objSize, small.next, small.segreg, small.cache, small.bits`marks, small.bits.bytes
      modifies large`freeRoot, large`occupiedRoot, large`poolHead, large`free, large`occupied, large`pool, large.nodes
      ensures small.Layout() && PcOf(small.st, ME).Idle? && MarksOk(small.st)
      ensures (res != 0 ==> small.Valid()) && (detach || size <= MAX_OBJECT_SIZE ==> large.Valid())
      ensures LayoutOk(Now()) && Answered(old(Snap()), Snap(), size, res, slot)
    {
      res, slot := 0, Slot(0, 0);
      InvMarksOk(small.st);
      if 1 <= size <= MAX_OBJECT_SIZE {
        res, slot := AllocateSmall(size);
      } else if MAX_OBJECT_SIZE < size <= large.end - large.start {
        res := AllocateLarge(size, detach);
      }
    }

    /** The mark stack's array is none of the small heap's. */
    ghost predicate StackApart()
      reads this, small, stack
    {
      && stack.data != small.objSize && stack.data != small.slider
      && stack.data as object !in {small.next as object, small.segreg as object, small.cache as object, small.bits.bytes as object}
    }

    /** The stack is empty and its array is its own. */
    ghost predicate StackReady()
      reads this, small, stack, stack.data
    {
      stack.Valid() && stack.contents == [] && StackApart()
    }

    /** What marking needs and keeps. */
    ghost predicate Markable(l: Layout)
      reads this, small, small.objSize, small.bits, small.bits.bytes, large, large.nodes, stack, stack.data
    {
      && LayoutOk(l)
      && small.objSize.Length == small.count == small.bits.blocks && small.bits.Valid()
      && small.start == l.smallStart && small.objSize[..] == l.sizes
      && large.OccupiedOk() && large.start == l.largeStart && large.end == l.largeEnd
      && Erase(large.occupied) == l.occupied
      && stack.Valid() && stack.contents == []
      && stack.data != small.objSize && stack.data as object != small.bits.bytes
    }

    /** The layout the heaps have now. */
    ghost function Now(): Layout
      reads this, small, small.objSize, large
    {
      Layout(small.start, small.objSize[..], large.start, large.end, Erase(large.occupied))
    }

    ghost function Snap(): Snapshot
      reads this, small, small.objSize, large
    {
      Snapshot(Now(), small.st, large.State())
    }

    /** The objects marked now. */
    ghost function MarkedNow(l: Layout): set<nat>
      reads this, small, small.bits, large
    {
      MarkedSet(l, large.occupied, small.bits.marks)
    }

    /** The marks in both heaps are exactly those of the objects of `m`. */
    ghost predicate MarksAre(l: Layout, m: set<nat>)
      reads this, small, small.bits, large
    {
      && SlotsOf(l, m, small.bits.marks)
      && Survivors(large.occupied) == BlocksOf(l, m) && large.occupied == MarkBy(l.occupied, m)
    }

    /** `mark` from the given root segments, whatever is marked before: `m` is marked afterwards. */
    method MarkAll(segments: seq<seq<nat>>, mem: nat -> nat, ghost l: Layout) returns (ghost m: set<nat>)
      requires Markable(l) && BitsOnObjects(l, small.bits.marks)
      modifies small.bits`marks, small.bits.bytes, large`occupied, T.Nodes(large.occupied), stack, stack.data
      ensures Markable(l) && (stack.data == old(stack.data) || fresh(stack.data))
      ensures T.Nodes(large.occupied) == old(T.Nodes(large.occupied))
      ensures MarkedAround(l, mem, Flatten(segments), old(MarkedNow(l)), m) && MarksAre(l, m)
    {
      var marker := new Marker(small, large, stack, l);
      ghost var log := marker.Mark(segments, mem);
      m := marker.marked;
      BitsAreMarked(l, large.occupied, small.bits.marks);
      FlagsAreMarked(l, large.occupied, small.bits.marks);
      MarkedTree(l, large.occupied, small.bits.marks);
    }

    /** Marking changes no array of the small heap but the bitmaps. */
    method MarkBesideLists(segments: seq<seq<nat>>, mem: nat -> nat, ghost l: Layout) returns (ghost m: set<nat>)
      requires Markable(l) && BitsOnObjects(l, small.bits.marks)
      requires small.Layout() && StackApart()
      modifies small`st, small.bits`marks, small.bits.bytes, large`occupied, T.Nodes(large.occupied), stack, stack.data
      ensures StackApart()
      ensures Markable(l) && small.Layout() && T.Nodes(large.occupied) == old(T.Nodes(large.occupied))
      ensures small.cache[..] == old(small.cache[..])
      ensures MarkedAround(l, mem, Flatten(segments), old(MarkedNow(l)), m) && MarksAre(l, m)
    {
      m := MarkAll(segments, mem, l);
      small.st := small.st.(marks := small.bits.marks);
    }

    /** Marking leaves the free side of the large heap alone. */
    method MarkBesideFree(segments: seq<seq<nat>>, mem: nat -> nat, ghost l: Layout) returns (ghost m: set<nat>)
      requires Markable(l) && BitsOnObjects(l, small.bits.marks)
      requires small.Layout() && StackApart()
      requires large.FreeSide() && T.Nodes(large.occupied) !! T.Nodes(large.free)
      requires T.Nodes(large.occupied) !! Elems(large.pool)
      modifies small`st, small.bits`marks, small.bits.bytes, large`occupied, T.Nodes(large.occupied), stack, stack.data
      ensures StackApart() && Markable(l) && small.Layout() && large.FreeSide() && small.cache[..] == old(small.cache[..])
      ensures MarkedAround(l, mem, Flatten(segments), old(MarkedNow(l)), m) && MarksAre(l, m)
    {
      m := MarkBesideLists(segments, mem, l);
    }

    /** `mark`: both heaps are still laid out afterwards. */
    method MarkPhase(segments: seq<seq<nat>>, mem: nat -> nat, ghost l: Layout) returns (ghost m: set<nat>)
      requires Markable(l) && BitsOnObjects(l, small.bits.marks)
      requires small.Layout() && StackApart() && large.Valid()
      modifies small`st, small.bits`marks, small.bits.bytes, large`occupied, T.Nodes(large.occupied), stack, stack.data
      ensures StackApart() && Markable(l) && small.Layout() && large.Valid() && small.cache[..] == old(small.cache[..])
      ensures MarkedAround(l, mem, Flatten(segments), old(MarkedNow(l)), m) && MarksAre(l, m)
    {
      ghost var before := large.State();
      m := MarkBesideFree(segments, mem, l);
      MarkedKeepsInv(before, large.occupied, large.start, large.end, large.nodes);
      assert large.State() == before.(occupied := large.occupied);
    }

    /** The handlers clear the caches; nothing else changes. */
    method ClearBeside(ghost l: Layout)
      requires small.Layout() && large.Valid() && Markable(l) && StackApart()
      modifies small`st, small.cache
      ensures small.Layout() && large.Valid() && Markable(l) && StackApart()
      ensures small.st.marks == old(small.st.marks) && NoneCached(small.cache[..])
    {
      small.ClearCache();
    }

    /** The small heap's part leaves the large heap alone, */
    method SweepSmall()
      requires small.Layout() && MarksOk(small.st) && NoneCached(small.cache[..]) && large.Valid()
      modifies small`st, small`emptyHead, small`emptyList, small`segList
      modifies small.slider, small.objSize, small.next, small.segreg
      ensures small.Valid() && small.st == Sweep(old(small.st)) && large.Valid()
    {
      small.SweepSmallHeap();
    }

    /** and the large heap's part the small one. */
    method SweepLarge(repaired: bool)
      requires small.Valid() && large.Valid()
      modifies large`freeRoot, large`occupiedRoot, large`poolHead, large`free, large`occupied, large`pool, large.nodes
      ensures small.Valid() && large.State() == SweepWith(old(large.State()), repaired)
      ensures large.Valid() <==> repaired || !Straddled(old(large.occupied))
    {
      large.SweepLargeHeap(repaired);
    }

    /** `sweep`: first the small heap, then the large one. */
    method SweepBoth(repaired: bool)
      requires small.Layout() && MarksOk(small.st) && NoneCached(small.cache[..])
      requires large.Valid()
      modifies small`st, small`emptyHead, small`emptyList, small`segList
      modifies small.slider, small.objSize, small.next, small.segreg
      modifies large`freeRoot, large`occupiedRoot, large`poolHead, large`free, large`occupied, large`pool, large.nodes
      ensures small.Valid() && small.st == Sweep(old(small.st))
      ensures large.State() == SweepWith(old(large.State()), repaired)
      ensures large.Valid() <==> repaired || !Straddled(old(large.occupied))
    {
      SweepSmall();
      SweepLarge(repaired);
    }

    /** The part of a collection before the sweep. */
    method ClearAndMark(segments: seq<seq<nat>>, mem: nat -> nat, ghost l: Layout) returns (ghost m: set<nat>)
      requires small.Layout() && large.Valid() && Markable(l) && StackApart() && BitsOnObjects(l, small.st.marks)
      modifies small`st, small.cache, small.bits`marks, small.bits.bytes
      modifies large`occupied, T.Nodes(large.occupied), stack, stack.data
      ensures small.Layout() && large.Valid() && small.objSize[..] == l.sizes
      ensures NoneCached(small.cache[..]) && StackReady()
      ensures MarkedAround(l, mem, Flatten(segments), old(MarkedNow(l)), m) && MarksAre(l, m)
    {
      ClearBeside(l);
      m := MarkPhase(segments, mem, l);
    }

    /** The sweep keeps what is marked, and no more. */
    method SweepUnmarked(ghost l: Layout, ghost m: set<nat>, repaired: bool)
      requires small.Layout() && large.Valid() && small.objSize[..] == l.sizes && NoneCached(small.cache[..])
      requires LayoutOk(l) && large.start == l.largeStart && large.end == l.largeEnd && small.start == l.smallStart
      requires MarksAre(l, m) && StackReady()
      modifies small`st, small`emptyHead, small`emptyList, small`segList
      modifies small.slider, small.objSize, small.next, small.segreg
      modifies large`freeRoot, large`occupiedRoot, large`poolHead, large`free, large`occupied, large`pool, large.nodes
      ensures small.Valid() && AfterSweep(l, Now(), small.st.used, m) && PcOf(small.st, ME).Idle?
      ensures T.Blocks(large.occupied) == BlocksOf(l, m)
      ensures large.Valid() <==> repaired || !Straddled(MarkBy(l.occupied, m))
      ensures large.Valid() ==> Markable(Now()) && StackApart()
    {
      ReadableMarks(l, small.st);
      SweptLayout(l, small.st, large.State(), repaired, m, large.nodes);
      SweepBoth(repaired);
      HeadersAreSizes(small.start, small.slider[..], small.objSize[..], small.st.blocks);
    }

    /**
     The body of one collection with the world stopped, from any marks the small
     sweep can read.  The objects in use afterwards are exactly those that were
     marked and those the roots reach around them; the large heap is in order
     exactly when `remove_bst` is repaired or no dead block is straddled.
     */
    method Collect(segments: seq<seq<nat>>, mem: nat -> nat, ghost l: Layout, repaired: bool) returns (ghost m: set<nat>)
      requires small.Layout() && large.Valid() && Markable(l) && StackApart()
      requires MarksOk(small.st)
      modifies small`st, small`emptyHead, small`emptyList, small`segList
      modifies small.slider, small.objSize, small.next, small.segreg, small.cache, small.bits`marks, small.bits.bytes
      modifies large`freeRoot, large`occupiedRoot, large`poolHead, large`free, large`occupied, large`pool, large.nodes
      modifies stack, stack.data
      ensures small.Valid() && MarksOk(small.st) && PcOf(small.st, ME).Idle?
      ensures MarkedAround(l, mem, Flatten(segments), old(MarkedNow(l)), m)
      ensures SlotsOf(l, m, small.st.used) && T.Blocks(large.occupied) == BlocksOf(l, m)
      ensures AfterSweep(l, Now(), small.st.used, m)
      ensures large.Valid() <==> repaired || !Straddled(MarkBy(l.occupied, m))
      ensures large.Valid() ==> Markable(Now()) && StackApart()
    {
      ReadableMarks(l, small.st);
      m := ClearAndMark(segments, mem, l);
      SweepUnmarked(l, m, repaired);
      InvMarksOk(small.st);
    }

    // ----- gc_malloc -----

    /** Between two requests of the one mutator that is left when the others wait. */
    ghost predicate Ready()
      reads this, small, small.slider, small.objSize, small.next, small.segreg, small.cache, small.bits, small.bits.bytes,
            large, large.nodes, stack, stack.data
    {
      && small.Layout() && PcOf(small.st, ME).Idle? && MarksOk(small.st) && small.start > 0
      && large.Valid() && Markable(Now()) && StackApart()
    }

    /** An allocation leaves the mark stack alone. */
    method Attempt(size: nat) returns (res: nat, ghost slot: Slot)
      requires Ready() && small.Valid()
      modifies small`st, small`emptyHead, small`emptyList, small`segList
      modifies small.slider, small.objSize, small.next, small.segreg, small.cache, small.bits`marks, small.bits.bytes
      modifies large`freeRoot, large`occupiedRoot, large`poolHead, large`free, large`occupied, large`pool, large.nodes
      ensures Ready() && (res != 0 ==> small.Valid())
      ensures Answered(old(Snap()), Snap(), size, res, slot)
    {
      res, slot := AllocateNewObject(size, true);
    }

    /** A collection with the repaired sweep between two requests. */
    method CollectReady(segments: seq<seq<nat>>, mem: nat -> nat) returns (ghost m: set<nat>)
      requires Ready()
      modifies small`st, small`emptyHead, small`emptyList, small`segList
      modifies small.slider, small.objSize, small.next, small.segreg, small.cache, small.bits`marks, small.bits.bytes
      modifies large`freeRoot, large`occupiedRoot, large`poolHead, large`free, large`occupied, large`pool, large.nodes
      modifies stack, stack.data
      ensures Ready() && small.Valid() && AfterSweep(old(Now()), Now(), small.st.used, m)
      ensures MarkedAround(old(Now()), mem, Flatten(segments), old(MarkedNow(Now())), m)
    {
      m := Collect(segments, mem, Now(), true);
    }

    /** From clear marks: exactly what the roots reach is in use afterwards. */
    method CollectFromClear(segments: seq<seq<nat>>, mem: nat -> nat, ghost l: Layout, repaired: bool) returns (ghost m: set<nat>)
      requires small.Layout() && large.Valid() && Markable(l) && StackApart()
      requires small.st.marks == {} && !HasLive(large.occupied)
      modifies small`st, small`emptyHead, small`emptyList, small`segList
      modifies small.slider, small.objSize, small.next, small.segreg, small.cache, small.bits`marks, small.bits.bytes
      modifies large`freeRoot, large`occupiedRoot, large`poolHead, large`free, large`occupied, large`pool, large.nodes
      modifies stack, stack.data
      ensures small.Valid() && ReachableSet(l, mem, Flatten(segments), m)
      ensures SlotsOf(l, m, small.st.used) && T.Blocks(large.occupied) == BlocksOf(l, m)
      ensures large.Valid() <==> repaired || !Straddled(MarkBy(l.occupied, m))
    {
      NothingMarked(l, large.occupied);
      m := Collect(segments, mem, l, repaired);
    }
  }

  lemma NothingMarked(l: Layout, occupied: T.Tree)
    requires !HasLive(occupied)
    ensures MarkedSet(l, occupied, {}) == {}
  {
    forall o | o in AllObjects(l) ensures !IsMarkedAt(occupied, o) { NoLiveNoMark(occupied, o); }
  }

  lemma {:induction false} NoLiveNoMark(t: T.Tree, a: nat)
    requires !HasLive(t)
    ensures !IsMarkedAt(t, a)
  {
    if t.Fork? {
      NoLiveNoMark(t.left, a);
      NoLiveNoMark(t.right, a);
    }
  }
}
