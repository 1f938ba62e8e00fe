/**
 One call of `gc_malloc` (gc.c) on its own: attempt, collection, second attempt, over
 the heaps themselves.  `StopProgress` and `Attempts` are about the same call among
 other threads.
 */
module GcMalloc {
  import opened Config
  import T = BlockTrees
  import opened SmallMachine
  import opened SmallRuns
  import opened SmallHeap
  import opened LargeRuns
  import opened Objects
  import opened Reachability
  import opened Allocations
  import opened Collector
  import opened Marking
  import opened Survival

  /** What a call did: `failed` and `swept` are the heaps after the first attempt and after the collection, `m` what was marked. */
  datatype Course =
    | Rejected
    | AtOnce(slot: Slot)
    | AfterCollection(failed: Snapshot, m: set<nat>, swept: Snapshot, slot: Slot)

  /** The call took the heaps from `h` to `h'` and answered `res`, by way of `c`. */
  ghost predicate Malloced(h: Snapshot, c: Course, h': Snapshot, size: nat, res: nat, mem: nat -> nat, roots: seq<nat>) {
    match c
    case Rejected => !(1 <= size <= HeapSize(h.l)) && res == 0 && h' == h
    case AtOnce(slot) => 1 <= size <= HeapSize(h.l) && res != 0 && Answered(h, h', size, res, slot)
    case AfterCollection(failed, m, swept, slot) =>
      && 1 <= size <= HeapSize(h.l)
      && (exists slot :: Answered(h, failed, size, 0, slot)) && failed.l == h.l
      && MarkedAround(h.l, mem, roots, MarkedSet(h.l, failed.large.occupied, failed.small.marks), m)
      && AfterSweep(h.l, swept.l, swept.small.used, m)
      && Answered(swept, h', size, res, slot)
  }

  /** The objects the mutator may still have: those in use, or those that were marked when a collection was made. */
  ghost predicate Live(h: Snapshot, c: Course, o: nat) {
    if c.AfterCollection? then o in c.m else InUse(h.l, h.small.used, o)
  }

  /** What is marked is in use after the sweep. */
  lemma MarkedInUse(l: Layout, l': Layout, slots: set<Slot>, m: set<nat>, o: nat, a: nat)
    requires AfterSweep(l, l', slots, m) && o in m && GetObject(l, a) == T.Some(o)
    ensures GetObject(l', a) == T.Some(o) && InUse(l', slots, o)
  {
    MarkedSurvives(l, l', slots, m, o, a);
    ResolvesToStart(l, a, o);
    ResolvesToStart(l', a, o);
    if !InLarge(l, o) {
      ObjectHasSlot(l, o);
      var x := SlotOf(l, o);
      assert x in slots && HasMark(slots, x.block) by { assert x == Slot(x.block, x.index); }
    }
  }

  /**
   Whatever its course, a call keeps every address of every live object, and what it
   returns shares no byte with any of them and resolves to itself throughout.
   */
  lemma MallocKeepsLive(h: Snapshot, c: Course, h': Snapshot, size: nat, res: nat, mem: nat -> nat, roots: seq<nat>, o: nat, a: nat)
    requires Malloced(h, c, h', size, res, mem, roots)
    requires Live(h, c, o) && GetObject(h.l, a) == T.Some(o)
    ensures StaysApart(h'.l, o, a, res, Align(size))
    ensures res != 0 ==> ResolvesWithin(h'.l, res, Align(size))
  {
    if c.AfterCollection? { MarkedInUse(h.l, c.swept.l, c.swept.small.used, c.m, o, a); }
  }

  /**
   When nothing is marked as the collection begins, the live objects are the reachable
   ones: a call that collects keeps all of these, apart from its result.
   */
  lemma MallocKeepsReachable(h: Snapshot, c: Course, h': Snapshot, size: nat, res: nat, mem: nat -> nat, roots: seq<nat>, o: nat, a: nat)
    requires Malloced(h, c, h', size, res, mem, roots) && c.AfterCollection?
    requires MarkedSet(h.l, c.failed.large.occupied, c.failed.small.marks) == {}
    requires GetObject(h.l, a) == T.Some(o)
    ensures Live(h, c, o) <==> Reachable(h.l, mem, roots, {}, o)
    ensures Reachable(h.l, mem, roots, {}, o) ==> StaysApart(h'.l, o, a, res, Align(size))
  {
    if Reachable(h.l, mem, roots, {}, o) { MallocKeepsLive(h, c, h', size, res, mem, roots, o, a); }
  }

  /** Every whole slot of every block of the size belongs to a marked object. */
  ghost predicate FullOfMarked(l: Layout, m: set<nat>, s: Small, size: nat) {
    SizeOk(size) && forall b, i: nat :: 0 <= b < |s.blocks| && s.blocks[b].size == size && i < Slots(size) ==>
      SlotIsObject(l, Slot(b, i)) && ObjectOf(l, Slot(b, i)) in m
  }

  /**
   A call in range that returns NULL has collected, and what it asked for is not to
   be had: for a small size, every slot is taken by a marked object; for a large one,
   no free block, or no node, will do when only the marked blocks are left.
   */
  lemma NullMeansFull(h: Snapshot, c: Course, h': Snapshot, size: nat, mem: nat -> nat, roots: seq<nat>)
    requires Malloced(h, c, h', size, 0, mem, roots) && 1 <= size <= HeapSize(h.l)
    ensures c.AfterCollection?
    ensures size <= MAX_OBJECT_SIZE ==> FullOfMarked(h.l, c.m, h'.small, size)
    ensures size > MAX_OBJECT_SIZE ==>
      Refused(c.swept.large.free, c.swept.large.pool, Align(size)) && T.Blocks(c.swept.l.occupied) == BlocksOf(h.l, c.m)
  {
    if size <= MAX_OBJECT_SIZE {
      forall b, i: nat | 0 <= b < |h'.small.blocks| && h'.small.blocks[b].size == size && i < Slots(size)
        ensures SlotIsObject(h.l, Slot(b, i)) && ObjectOf(h.l, Slot(b, i)) in c.m
      {
        assert Slot(b, i) in h'.small.used;
      }
    }
  }

  /** `gc_malloc`, with both repairs of the large heap. */
  method GcMalloc(heap: Heap, size: nat, segments: seq<seq<nat>>, mem: nat -> nat) returns (res: nat, ghost c: Course)
    requires heap.Ready() && heap.small.Valid()
    modifies heap.small`st, heap.small`emptyHead, heap.small`emptyList, heap.small`segList
    modifies heap.small.slider, heap.small.objSize, heap.small.next, heap.small.segreg, heap.small.cache
    modifies heap.small.bits`marks, heap.small.bits.bytes
    modifies heap.large`freeRoot, heap.large`occupiedRoot, heap.large`poolHead
    modifies heap.large`free, heap.large`occupied, heap.large`pool, heap.large.nodes
    modifies heap.stack, heap.stack.data
    ensures heap.Ready() && (res != 0 ==> heap.small.Valid())
    ensures Malloced(old(heap.Snap()), c, heap.Snap(), size, res, mem, Flatten(segments))
  {
    res, c := 0, Rejected;
    if 1 <= size <= heap.large.end - heap.large.start {
      ghost var h := heap.Snap();
      ghost var slot;
      res, slot := heap.Attempt(size);
      c := AtOnce(slot);
      if res == 0 {
        ghost var failed := heap.Snap();
        NullKeepsLayout(h, failed, size, slot, heap.large.nodes);
        ghost var m := heap.CollectReady(segments, mem);
        ghost var swept := heap.Snap();
        res, slot := heap.Attempt(size);
        c := AfterCollection(failed, m, swept, slot);
      }
    }
  }
}
