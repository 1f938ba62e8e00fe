/**
 The mark phase (marker/marking.c): a closure over words with an explicit stack,
 setting flags in the occupied tree and bits in the bitmaps.
 */
module Marking {
  import T = BlockTrees
  import opened Sequences
  import opened Config
  import opened TreeHeap
  import opened LargeHeap
  import opened SmallMachine
  import opened Bitmap
  import opened SmallHeap
  import opened MarkStack
  import opened Objects
  import opened Reachability

  class Marker {
    const small: SmallAllocator
    const large: LargeAllocator
    const stack: Stack
    /** How addresses resolve; marking does not change it. */
    ghost const l: Layout
    /** The objects marked so far. */
    ghost var marked: set<nat>

    constructor (small: SmallAllocator, large: LargeAllocator, stack: Stack, ghost l: Layout)
      ensures this.small == small && this.large == large && this.stack == stack && this.l == l
      ensures marked == MarkedSet(l, large.occupied, small.bits.marks)
    {
      this.small, this.large, this.stack, this.l := small, large, stack, l;
      marked := MarkedSet(l, large.occupied, small.bits.marks);
    }

    ghost predicate Ready()
      reads this, small, small.objSize, small.bits, small.bits.bytes, large, large.nodes, stack, stack.data
    {
      && HeapReady()
      && stack.Valid() && stack.data != small.objSize && stack.data as object != small.bits.bytes
    }

    /** The two heaps are laid out as `l` says. */
    ghost predicate HeapReady()
      reads this, small, small.objSize, small.bits, small.bits.bytes, large, large.nodes
    {
      && LayoutOk(l)
      && small.objSize.Length == small.count == small.bits.blocks && small.bits.Valid()
      && small.start == l.smallStart && small.objSize[..] == l.sizes
      && large.OccupiedOk() && large.start == l.largeStart && large.end == l.largeEnd
      && Erase(large.occupied) == l.occupied
      && marked == MarkedSet(l, large.occupied, small.bits.marks)
      && BitsOnObjects(l, small.bits.marks)
    }

    // ----- object.c -----

    function GetObjectAt(a: nat): (o: T.Option<nat>)
      requires HeapReady()
      reads this, small, small.objSize, small.bits, small.bits.bytes, large, large.nodes
      ensures o == GetObject(l, a)
    {
      if large.start <= a < large.end then GetLargeAt(a)
      else if small.start <= a < small.start + BLOCK_SIZE * small.count then GetSmallAt(a)
      else T.None
    }

    function GetLargeAt(a: nat): (o: T.Option<nat>)
      requires HeapReady() && InLarge(l, a)
      reads this, small, small.objSize, small.bits, small.bits.bytes, large, large.nodes
      ensures o == GetObject(l, a)
    {
      EraseSearch(large.occupied, a);
      var node := ExtSearchNode(large.occupiedRoot, large.occupied, a);
      if node != null then T.Some(node.block.addr) else T.None
    }

    function GetSmallAt(a: nat): (o: T.Option<nat>)
      requires HeapReady() && InSmall(l, a) && !InLarge(l, a)
      reads this, small, small.objSize, small.bits, small.bits.bytes, large, large.nodes
      ensures o == GetObject(l, a)
    {
      BlockInHeap(l, a);
      var b := BlockOf(small.start, a);
      assert small.objSize[b] == l.sizes[b];
      var size := Align(small.objSize[b]);
      var inBlock := a - (small.start + BLOCK_SIZE * b);
      if inBlock < BLOCK_HEADER_SIZE then T.None
      else if size == 0 || size > MAX_OBJECT_SIZE then T.None
      else T.Some(a - Offset(inBlock - BLOCK_HEADER_SIZE, size))
    }

    function GetObjectSizeAt(o: nat): (size: nat)
      requires HeapReady()
      reads this, small, small.objSize, small.bits, small.bits.bytes, large, large.nodes
      ensures size == ObjectSize(l, o)
    {
      EraseSearch(large.occupied, o);
      if small.start <= o < small.start + BLOCK_SIZE * small.count then
        BlockInHeap(l, o);
        Align(small.objSize[BlockOf(small.start, o)])
      else
        var node := SearchNode(large.occupiedRoot, large.occupied, o);
        if node != null then node.block.size else 0
    }

    function IsMarkedAtAddr(o: nat): (yes: bool)
      requires HeapReady() && IsObject(l, o)
      reads this, small, small.objSize, small.bits, small.bits.bytes, large, large.nodes
      ensures yes <==> o in marked
    {
      ObjectsAreAll(l, o);
      if large.start <= o < large.end then
        var node := SearchNode(large.occupiedRoot, large.occupied, o);
        node != null && node.block.isMarked
      else
        SmallParts(l, o);
        var b := BlockOf(small.start, o);
        IndexFits(small.start, o, b, small.objSize[b]);
        small.bits.Get(b, IndexOf(small.start, o, b, small.objSize[b]))
    }

    method MarkObject(o: nat)
      requires HeapReady() && IsObject(l, o)
      modifies this`marked, small.bits`marks, small.bits.bytes, large`occupied, T.Nodes(large.occupied)
      ensures HeapReady() && marked == old(marked) + {o}
      ensures T.Nodes(large.occupied) == old(T.Nodes(large.occupied))
    {
      if large.start <= o < large.end {
        Objects.MarkLarge(l, large.occupied, small.bits.marks, o);
        large.MarkLarge(o);
      } else {
        SmallParts(l, o);
        Objects.MarkSmall(l, large.occupied, small.bits.marks, o);
        ObjectHasSlot(l, o);
        var b := BlockOf(small.start, o);
        IndexFits(small.start, o, b, small.objSize[b]);
        small.bits.Set(b, IndexOf(small.start, o, b, small.objSize[b]), true);
      }
      marked := marked + {o};
    }

    // ----- marking.c -----

    method MarkAndPush(o: nat)
      requires Ready() && IsObject(l, o)
      modifies this`marked, small.bits`marks, small.bits.bytes, large`occupied, T.Nodes(large.occupied), stack, stack.data
      ensures Ready() && (stack.data == old(stack.data) || fresh(stack.data))
      ensures T.Nodes(large.occupied) == old(T.Nodes(large.occupied))
      ensures marked == old(marked) + {o}
      ensures stack.contents == old(stack.contents) + if o in old(marked) then [] else [o]
    {
      if !IsMarkedAtAddr(o) {
        MarkObject(o);
        stack.Push(o);
      }
    }

    /** `scan`: marks and pushes what the words of the object at `a` resolve to. */
    method Scan(a: nat, mem: nat -> nat) returns (ghost pushed: seq<nat>)
      requires Ready() && IsObject(l, a)
      modifies this`marked, small.bits`marks, small.bits.bytes, large`occupied, T.Nodes(large.occupied), stack, stack.data
      ensures Ready() && (stack.data == old(stack.data) || fresh(stack.data))
      ensures T.Nodes(large.occupied) == old(T.Nodes(large.occupied))
      ensures stack.contents == old(stack.contents) + pushed
      ensures Batch(l, mem, a, old(marked), marked, pushed, Words(ObjectSize(l, a)))
    {
      pushed := [];
      var size := GetObjectSizeAt(a);
      var inner := a;
      ghost var k: nat := 0;
      while inner < a + size
        invariant Ready() && (stack.data == old(stack.data) || fresh(stack.data))
        invariant T.Nodes(large.occupied) == old(T.Nodes(large.occupied))
        invariant inner == a + 8 * k && (k > 0 ==> 8 * (k - 1) < size)
        invariant stack.contents == old(stack.contents) + pushed
        invariant Batch(l, mem, a, old(marked), marked, pushed, k)
        decreases a + size - inner
      {
        pushed := ScanWord(a, mem, k, inner, old(marked), pushed);
        inner := inner + 8;
        k := k + 1;
      }
    }

    /** One round of the loop of `scan`: word `k`, at address `inner`. */
    method ScanWord(a: nat, mem: nat -> nat, ghost k: nat, inner: nat, ghost before: set<nat>, ghost pushed: seq<nat>)
      returns (ghost pushed': seq<nat>)
      requires Ready() && inner == a + 8 * k && Batch(l, mem, a, before, marked, pushed, k)
      modifies this`marked, small.bits`marks, small.bits.bytes, large`occupied, T.Nodes(large.occupied), stack, stack.data
      ensures Ready() && (stack.data == old(stack.data) || fresh(stack.data))
      ensures T.Nodes(large.occupied) == old(T.Nodes(large.occupied))
      ensures Batch(l, mem, a, before, marked, pushed', k + 1)
      ensures old(stack.contents) <= stack.contents && pushed' == pushed + stack.contents[|old(stack.contents)|..]
    {
      var found := GetObjectAt(mem(inner));
      BatchStep(l, mem, a, before, marked, pushed, k);
      pushed' := pushed;
      if found.Some? {
        ResolvesToStart(l, mem(inner), found.value);
        if found.value !in marked { pushed' := pushed + [found.value]; }
        MarkAndPush(found.value);
      }
    }

    /** `closure`: pops and scans until the stack is empty. */
    method Closure(mem: nat -> nat, ghost roots: seq<nat>, ghost m0: set<nat>) returns (ghost log: seq<nat>)
      requires Ready() && Tricolour(l, mem, roots, m0, marked, stack.contents)
      modifies this`marked, small.bits`marks, small.bits.bytes, large`occupied, T.Nodes(large.occupied), stack, stack.data
      ensures Ready() && (stack.data == old(stack.data) || fresh(stack.data))
      ensures T.Nodes(large.occupied) == old(T.Nodes(large.occupied))
      ensures stack.contents == [] && Tricolour(l, mem, roots, m0, marked, [])
      ensures PushedOnce(old(marked), marked, log)
    {
      log := [];
      PushedNone(marked);
      while !stack.IsEmpty()
        invariant Ready() && (stack.data == old(stack.data) || fresh(stack.data))
        invariant T.Nodes(large.occupied) == old(T.Nodes(large.occupied))
        invariant Tricolour(l, mem, roots, m0, marked, stack.contents)
        invariant PushedOnce(old(marked), marked, log)
        decreases |AllObjects(l) - marked|, |stack.contents|
      {
        ghost var before := marked;
        ghost var pushed := PopAndScan(mem, roots, m0);
        PushedMore(old(marked), before, marked, log, pushed);
        log := log + pushed;
      }
    }

    /** One round of the loop of `closure`. */
    method PopAndScan(mem: nat -> nat, ghost roots: seq<nat>, ghost m0: set<nat>) returns (ghost pushed: seq<nat>)
      requires Ready() && stack.contents != [] && Tricolour(l, mem, roots, m0, marked, stack.contents)
      modifies this`marked, small.bits`marks, small.bits.bytes, large`occupied, T.Nodes(large.occupied), stack, stack.data
      ensures Ready() && (stack.data == old(stack.data) || fresh(stack.data))
      ensures T.Nodes(large.occupied) == old(T.Nodes(large.occupied))
      ensures Tricolour(l, mem, roots, m0, marked, stack.contents) && PushedOnce(old(marked), marked, pushed)
      ensures |AllObjects(l) - marked| < |AllObjects(l) - old(marked)|
        || (marked == old(marked) && |stack.contents| < |old(stack.contents)|)
    {
      var cur := stack.Pop();
      ghost var rest := stack.contents;
      PoppedIsObject(l, mem, roots, m0, marked, rest, cur);
      pushed := Scan(cur, mem);
      ScanKeepsTricolour(l, mem, roots, m0, old(marked), marked, rest, cur, pushed);
    }

    /** `segment_traverse`: marks what the words of the segment resolve to, then closes. */
    method SegmentTraverse(segment: seq<nat>, mem: nat -> nat, ghost roots: seq<nat>, ghost m0: set<nat>)
      returns (ghost log: seq<nat>)
      requires Ready() && stack.contents == [] && Tricolour(l, mem, roots, m0, marked, []) && RootsMarked(l, roots, marked)
      modifies this`marked, small.bits`marks, small.bits.bytes, large`occupied, T.Nodes(large.occupied), stack, stack.data
      ensures Ready() && (stack.data == old(stack.data) || fresh(stack.data))
      ensures T.Nodes(large.occupied) == old(T.Nodes(large.occupied))
      ensures stack.contents == [] && Tricolour(l, mem, roots + segment, m0, marked, [])
      ensures RootsMarked(l, roots + segment, marked)
      ensures PushedOnce(old(marked), marked, log)
    {
      log := [];
      PushedNone(marked);
      ghost var (first, done) := (marked, roots);
      SegmentStart(roots, segment);
      var i := 0;
      while i < |segment|
        invariant 0 <= i <= |segment| && done == roots + segment[..i]
        invariant Ready() && (stack.data == old(stack.data) || fresh(stack.data))
        invariant T.Nodes(large.occupied) == old(T.Nodes(large.occupied))
        invariant Tricolour(l, mem, done, m0, marked, stack.contents) && RootsMarked(l, done, marked)
        invariant PushedOnce(first, marked, log)
      {
        log := MoreWord(segment[i], mem, done, m0, first, log);
        SegmentSnoc(roots, segment, i);
        done := done + [segment[i]];
        i := i + 1;
      }
      SegmentEnd(roots, segment);
      log := CloseSegment(mem, done, m0, first, log);
    }

    /** One round of the loop: one root word more. */
    method MoreWord(word: nat, mem: nat -> nat, ghost roots: seq<nat>, ghost m0: set<nat>, ghost first: set<nat>, ghost log: seq<nat>)
      returns (ghost log': seq<nat>)
      requires Ready() && Tricolour(l, mem, roots, m0, marked, stack.contents) && RootsMarked(l, roots, marked)
      requires PushedOnce(first, marked, log)
      modifies this`marked, small.bits`marks, small.bits.bytes, large`occupied, T.Nodes(large.occupied), stack, stack.data
      ensures Ready() && (stack.data == old(stack.data) || fresh(stack.data))
      ensures T.Nodes(large.occupied) == old(T.Nodes(large.occupied))
      ensures Tricolour(l, mem, roots + [word], m0, marked, stack.contents) && RootsMarked(l, roots + [word], marked)
      ensures PushedOnce(first, marked, log')
    {
      ghost var pushed := RootWord(word, mem, roots, m0);
      PushedMore(first, old(marked), marked, log, pushed);
      log' := log + pushed;
    }

    /** The closure at the end of a segment. */
    method CloseSegment(mem: nat -> nat, ghost roots: seq<nat>, ghost m0: set<nat>, ghost first: set<nat>, ghost log: seq<nat>)
      returns (ghost log': seq<nat>)
      requires Ready() && Tricolour(l, mem, roots, m0, marked, stack.contents) && RootsMarked(l, roots, marked)
      requires PushedOnce(first, marked, log)
      modifies this`marked, small.bits`marks, small.bits.bytes, large`occupied, T.Nodes(large.occupied), stack, stack.data
      ensures Ready() && stack.contents == [] && (stack.data == old(stack.data) || fresh(stack.data))
      ensures T.Nodes(large.occupied) == old(T.Nodes(large.occupied))
      ensures Tricolour(l, mem, roots, m0, marked, []) && RootsMarked(l, roots, marked)
      ensures PushedOnce(first, marked, log')
    {
      ghost var more := Closure(mem, roots, m0);
      PushedMore(first, old(marked), marked, log, more);
      log' := log + more;
    }

    /** One root word: the object it resolves to, if any, is marked and pushed. */
    method RootWord(word: nat, mem: nat -> nat, ghost roots: seq<nat>, ghost m0: set<nat>) returns (ghost pushed: seq<nat>)
      requires Ready() && Tricolour(l, mem, roots, m0, marked, stack.contents) && RootsMarked(l, roots, marked)
      modifies this`marked, small.bits`marks, small.bits.bytes, large`occupied, T.Nodes(large.occupied), stack, stack.data
      ensures Ready() && (stack.data == old(stack.data) || fresh(stack.data))
      ensures T.Nodes(large.occupied) == old(T.Nodes(large.occupied))
      ensures Tricolour(l, mem, roots + [word], m0, marked, stack.contents) && RootsMarked(l, roots + [word], marked)
      ensures PushedOnce(old(marked), marked, pushed)
    {
      RootKeepsTricolour(l, mem, roots, word, m0, marked, stack.contents);
      pushed := MarkWord(word);
    }

    method MarkWord(word: nat) returns (ghost pushed: seq<nat>)
      requires Ready()
      modifies this`marked, small.bits`marks, small.bits.bytes, large`occupied, T.Nodes(large.occupied), stack, stack.data
      ensures Ready() && (stack.data == old(stack.data) || fresh(stack.data))
      ensures T.Nodes(large.occupied) == old(T.Nodes(large.occupied))
      ensures pushed == NewlyMarked(GetObject(l, word), old(marked)) && stack.contents == old(stack.contents) + pushed
      ensures marked == old(marked) + Elems(pushed)
    {
      pushed := [];
      var found := GetObjectAt(word);
      if found.Some? {
        ResolvesToStart(l, word, found.value);
        pushed := NewlyMarked(found, marked);
        MarkAndPush(found.value);
      }
    }

    /**
     `mark` over the given root segments.  `m0` is what was marked beforehand: with
     nothing marked the result is exactly the reachable objects; otherwise the
     search does not pass through objects marked beforehand.
     */
    method Mark(segments: seq<seq<nat>>, mem: nat -> nat) returns (ghost log: seq<nat>)
      requires Ready() && stack.contents == []
      modifies this`marked, small.bits`marks, small.bits.bytes, large`occupied, T.Nodes(large.occupied), stack, stack.data
      ensures Ready() && stack.contents == [] && (stack.data == old(stack.data) || fresh(stack.data))
      ensures T.Nodes(large.occupied) == old(T.Nodes(large.occupied))
      ensures forall o :: o in marked <==> o in old(marked) || Reachable(l, mem, Flatten(segments), old(marked), o)
      ensures PushedOnce(old(marked), marked, log)
    {
      MarkedAreObjects();
      ghost var m0 := marked;
      log := TraverseSegments(segments, mem);
      MarkedIsReachable(l, mem, Flatten(segments), m0, marked);
    }

    /** `segment_traverse` as one of several. */
    method MoreSegment(segment: seq<nat>, mem: nat -> nat, ghost roots: seq<nat>, ghost m0: set<nat>, ghost log: seq<nat>)
      returns (ghost log': seq<nat>)
      requires Ready() && stack.contents == [] && Tricolour(l, mem, roots, m0, marked, []) && RootsMarked(l, roots, marked)
      requires PushedOnce(m0, marked, log)
      modifies this`marked, small.bits`marks, small.bits.bytes, large`occupied, T.Nodes(large.occupied), stack, stack.data
      ensures Ready() && stack.contents == [] && (stack.data == old(stack.data) || fresh(stack.data))
      ensures T.Nodes(large.occupied) == old(T.Nodes(large.occupied))
      ensures Tricolour(l, mem, roots + segment, m0, marked, []) && RootsMarked(l, roots + segment, marked)
      ensures PushedOnce(m0, marked, log')
    {
      ghost var more := SegmentTraverse(segment, mem, roots, m0);
      PushedMore(m0, old(marked), marked, log, more);
      log' := log + more;
    }

    method TraverseSegments(segments: seq<seq<nat>>, mem: nat -> nat) returns (ghost log: seq<nat>)
      requires Ready() && stack.contents == [] && marked <= AllObjects(l)
      modifies this`marked, small.bits`marks, small.bits.bytes, large`occupied, T.Nodes(large.occupied), stack, stack.data
      ensures Ready() && stack.contents == [] && (stack.data == old(stack.data) || fresh(stack.data))
      ensures T.Nodes(large.occupied) == old(T.Nodes(large.occupied))
      ensures Tricolour(l, mem, Flatten(segments), old(marked), marked, []) && RootsMarked(l, Flatten(segments), marked)
      ensures PushedOnce(old(marked), marked, log)
    {
      log := [];
      PushedNone(marked);
      ghost var roots := [];
      var i := 0;
      while i < |segments|
        invariant 0 <= i <= |segments| && roots == Flatten(segments[..i])
        invariant Ready() && stack.contents == [] && (stack.data == old(stack.data) || fresh(stack.data))
        invariant T.Nodes(large.occupied) == old(T.Nodes(large.occupied))
        invariant Tricolour(l, mem, roots, old(marked), marked, []) && RootsMarked(l, roots, marked)
        invariant PushedOnce(old(marked), marked, log)
      {
        log := MoreSegment(segments[i], mem, roots, old(marked), log);
        FlattenSnoc(segments, i);
        roots := roots + segments[i];
        i := i + 1;
      }
      assert segments[..i] == segments;
    }

    lemma MarkedAreObjects()
      requires HeapReady()
      ensures marked <= AllObjects(l)
    {
    }
  }

  /** Every bit that is set belongs to an object. */
  ghost predicate BitsOnObjects(l: Layout, marks: set<Slot>) { forall x :: x in marks ==> SlotIsObject(l, x) }

  /** All root words, segment after segment. */
  ghost function Flatten(segments: seq<seq<nat>>): seq<nat>
    decreases |segments|
  {
    if segments == [] then [] else Flatten(segments[..|segments| - 1]) + segments[|segments| - 1]
  }

  lemma SegmentStart(roots: seq<nat>, segment: seq<nat>)
    ensures roots == roots + segment[..0]
  {
  }

  lemma SegmentEnd(roots: seq<nat>, segment: seq<nat>)
    ensures roots + segment[..|segment|] == roots + segment
  {
  }

  lemma SegmentSnoc(roots: seq<nat>, segment: seq<nat>, i: nat)
    requires i < |segment|
    ensures (roots + segment[..i]) + [segment[i]] == roots + segment[..i + 1]
  {
  }

  lemma FlattenSnoc(segments: seq<seq<nat>>, i: nat)
    requires i < |segments|
    ensures Flatten(segments[..i + 1]) == Flatten(segments[..i]) + segments[i]
  {
    assert segments[..i + 1][..i] == segments[..i];
  }

  // ----- The tri-colour invariant -----

  /**
   `m` is marked, `s` is the stack, `m0` was marked beforehand.  Everything newly
   marked is reachable, and is on the stack or has all its children marked.
   */
  ghost predicate Tricolour(l: Layout, mem: nat -> nat, roots: seq<nat>, m0: set<nat>, m: set<nat>, s: seq<nat>) {
    && m0 <= m && m <= AllObjects(l)
    && (forall x :: x in s ==> x in m && x !in m0)
    && (forall o, q :: o in m && o !in m0 && o !in s && Edge(l, mem, o, q) ==> q in m)
    && (forall o :: o in m && o !in m0 ==> Reachable(l, mem, roots, m0, o))
  }

  /** The log lists, once each, the objects newly marked. */
  ghost predicate PushedOnce(before: set<nat>, after: set<nat>, log: seq<nat>) {
    after == before + Elems(log) && NoneIn(log, before) && NoRepeats(log)
  }

  ghost predicate RootsMarked(l: Layout, roots: seq<nat>, m: set<nat>) {
    forall p :: IsRoot(l, roots, p) ==> p in m
  }

  lemma PushedNone(m: set<nat>)
    ensures PushedOnce(m, m, [])
  {
  }

  lemma PushedOne(m: set<nat>, x: nat)
    requires x !in m
    ensures Elems([x]) == {x} && PushedOnce(m, m + {x}, [x])
  {
  }

  lemma PushedMore(a: set<nat>, b: set<nat>, c: set<nat>, log: seq<nat>, more: seq<nat>)
    requires PushedOnce(a, b, log) && PushedOnce(b, c, more)
    ensures PushedOnce(a, c, log + more)
  {
    assert Elems(log + more) == Elems(log) + Elems(more);
    forall i, j | 0 <= i < j < |log + more| ensures (log + more)[i] != (log + more)[j] {
      if i < |log| <= j { assert log[i] in Elems(log) && more[j - |log|] in more; }
    }
  }

  lemma PoppedIsObject(l: Layout, mem: nat -> nat, roots: seq<nat>, m0: set<nat>, m: set<nat>, rest: seq<nat>, cur: nat)
    requires Tricolour(l, mem, roots, m0, m, rest + [cur])
    ensures IsObject(l, cur) && cur in m && cur !in m0
  {
    assert cur in rest + [cur];
    ObjectsAreAll(l, cur);
  }

  /** What one scan marks is reachable, through the object that was scanned. */
  lemma ScanReaches(l: Layout, mem: nat -> nat, roots: seq<nat>, m0: set<nat>, m: set<nat>, m': set<nat>,
                    rest: seq<nat>, cur: nat, pushed: seq<nat>)
    requires LayoutOk(l) && Tricolour(l, mem, roots, m0, m, rest + [cur])
    requires Batch(l, mem, cur, m, m', pushed, Words(ObjectSize(l, cur)))
    ensures m' <= AllObjects(l)
    ensures forall x :: x in pushed ==> x in m' && x !in m
    ensures forall o :: o in m' && o !in m0 ==> Reachable(l, mem, roots, m0, o)
  {
    assert cur in rest + [cur];
    forall x | x in pushed ensures Edge(l, mem, cur, x) && x in AllObjects(l) {
      var k: nat :| k < Words(ObjectSize(l, cur)) && Child(l, mem, cur, k) == T.Some(x);
      ResolvesToStart(l, mem(cur + 8 * k), x);
    }
    forall o | o in m' && o !in m0 ensures Reachable(l, mem, roots, m0, o) {
      if o !in m { EdgeReachable(l, mem, roots, m0, cur, o); }
    }
  }

  /** The scanned object now has all its children marked. */
  lemma ScanCloses(l: Layout, mem: nat -> nat, roots: seq<nat>, m0: set<nat>, m: set<nat>, m': set<nat>,
                   rest: seq<nat>, cur: nat, pushed: seq<nat>, o: nat, q: nat)
    requires Tricolour(l, mem, roots, m0, m, rest + [cur])
    requires Batch(l, mem, cur, m, m', pushed, Words(ObjectSize(l, cur)))
    requires o in m' && o !in m0 && o !in rest + pushed && Edge(l, mem, o, q)
    ensures q in m'
  {
    if o == cur {
      var k: nat :| 8 * k < ObjectSize(l, cur) && Child(l, mem, o, k) == T.Some(q);
      assert k < Words(ObjectSize(l, cur));
    } else {
      assert o !in rest + [cur] && o in m;
    }
  }

  lemma ScanKeepsTricolour(l: Layout, mem: nat -> nat, roots: seq<nat>, m0: set<nat>, m: set<nat>, m': set<nat>,
                           rest: seq<nat>, cur: nat, pushed: seq<nat>)
    requires LayoutOk(l) && Tricolour(l, mem, roots, m0, m, rest + [cur])
    requires Batch(l, mem, cur, m, m', pushed, Words(ObjectSize(l, cur)))
    ensures Tricolour(l, mem, roots, m0, m', rest + pushed)
    ensures PushedOnce(m, m', pushed)
    ensures pushed == [] ==> m' == m
    ensures pushed != [] ==> |AllObjects(l) - m'| < |AllObjects(l) - m|
  {
    ScanReaches(l, mem, roots, m0, m, m', rest, cur, pushed);
    forall o, q | o in m' && o !in m0 && o !in rest + pushed && Edge(l, mem, o, q) ensures q in m' {
      ScanCloses(l, mem, roots, m0, m, m', rest, cur, pushed, o, q);
    }
    forall x | x in rest ensures x in rest + [cur] {}
    if pushed != [] {
      assert pushed[0] in Elems(pushed);
      SmallerSet(AllObjects(l) - m', AllObjects(l) - m, pushed[0]);
    }
  }

  lemma SmallerSet(a: set<nat>, b: set<nat>, x: nat)
    requires a <= b && x in b && x !in a
    ensures |a| < |b|
  {
    assert b == a + (b - a) && x in b - a;
  }

  /** What an address adds to the stack when the objects of `m` are marked. */
  ghost function NewlyMarked(f: T.Option<nat>, m: set<nat>): seq<nat> {
    if f.Some? && f.value !in m then [f.value] else []
  }

  /** One more root word. */
  lemma RootKeepsTricolour(l: Layout, mem: nat -> nat, roots: seq<nat>, word: nat, m0: set<nat>, m: set<nat>, s: seq<nat>)
    requires LayoutOk(l) && Tricolour(l, mem, roots, m0, m, s) && RootsMarked(l, roots, m)
    ensures var f := NewlyMarked(GetObject(l, word), m);
      && Tricolour(l, mem, roots + [word], m0, m + Elems(f), s + f) && RootsMarked(l, roots + [word], m + Elems(f))
      && PushedOnce(m, m + Elems(f), f)
  {
    WiderRoots(l, mem, roots, word, m0, m, s);
    if GetObject(l, word).Some? && GetObject(l, word).value !in m { NewRoot(l, mem, roots, word, m0, GetObject(l, word).value); }
    GreyFound(l, mem, roots + [word], GetObject(l, word), m0, m, s);
  }

  lemma NewRoot(l: Layout, mem: nat -> nat, roots: seq<nat>, word: nat, m0: set<nat>, x: nat)
    requires LayoutOk(l) && GetObject(l, word) == T.Some(x) && x !in m0
    ensures IsObject(l, x) && Reachable(l, mem, roots + [word], m0, x)
  {
    ResolvesToStart(l, word, x);
    assert (roots + [word])[|roots|] == word;
    RootReachable(l, mem, roots + [word], m0, x);
  }

  /** `found` is the only root object that may still be unmarked: it is marked and pushed. */
  lemma GreyFound(l: Layout, mem: nat -> nat, roots: seq<nat>, found: T.Option<nat>, m0: set<nat>, m: set<nat>, s: seq<nat>)
    requires Tricolour(l, mem, roots, m0, m, s)
    requires forall p: nat :: IsRoot(l, roots, p) ==> p in m || found == T.Some(p)
    requires found.Some? && found.value !in m ==> IsObject(l, found.value) && Reachable(l, mem, roots, m0, found.value)
    ensures var f := NewlyMarked(found, m);
      && Tricolour(l, mem, roots, m0, m + Elems(f), s + f) && RootsMarked(l, roots, m + Elems(f))
      && PushedOnce(m, m + Elems(f), f)
  {
    if found.Some? && found.value !in m {
      GreyOne(l, mem, roots, m0, m, s, found.value);
      PushedOne(m, found.value);
    } else {
      PushedNone(m);
      assert m + Elems([]) == m && s + [] == s;
    }
  }

  /** A reachable object is marked and pushed. */
  lemma GreyOne(l: Layout, mem: nat -> nat, roots: seq<nat>, m0: set<nat>, m: set<nat>, s: seq<nat>, x: nat)
    requires Tricolour(l, mem, roots, m0, m, s) && x !in m && IsObject(l, x) && Reachable(l, mem, roots, m0, x)
    ensures Elems([x]) == {x} && Tricolour(l, mem, roots, m0, m + {x}, s + [x])
  {
    ObjectsAreAll(l, x);
    forall o | o in s ensures o in s + [x] {}
    assert x in s + [x];
  }

  /** The invariant holds for a longer list of roots, and only the last word can bring a new root object. */
  lemma WiderRoots(l: Layout, mem: nat -> nat, roots: seq<nat>, word: nat, m0: set<nat>, m: set<nat>, s: seq<nat>)
    requires Tricolour(l, mem, roots, m0, m, s) && RootsMarked(l, roots, m)
    ensures Tricolour(l, mem, roots + [word], m0, m, s)
    ensures forall p: nat :: IsRoot(l, roots + [word], p) ==> p in m || GetObject(l, word) == T.Some(p)
  {
    forall p: nat | IsRoot(l, roots + [word], p) ensures p in m || GetObject(l, word) == T.Some(p) {
      var i :| 0 <= i < |roots + [word]| && GetObject(l, (roots + [word])[i]) == T.Some(p);
      if i < |roots| { assert GetObject(l, roots[i]) == T.Some(p); }
    }
    forall o | o in m && o !in m0 ensures Reachable(l, mem, roots + [word], m0, o) {
      MoreRoots(l, mem, roots, [word], m0, o);
    }
  }

  lemma MarkedIsReachable(l: Layout, mem: nat -> nat, roots: seq<nat>, m0: set<nat>, m: set<nat>)
    requires Tricolour(l, mem, roots, m0, m, []) && RootsMarked(l, roots, m)
    ensures forall o :: o in m <==> o in m0 || Reachable(l, mem, roots, m0, o)
  {
    forall o ensures o in m <==> o in m0 || Reachable(l, mem, roots, m0, o) {
      ClosedIsReachable(l, mem, roots, m0, m, o);
    }
  }

  /** When the stack is empty, what is newly marked is exactly what the roots reach around `m0`. */
  lemma ClosedIsReachable(l: Layout, mem: nat -> nat, roots: seq<nat>, m0: set<nat>, m: set<nat>, o: nat)
    requires Tricolour(l, mem, roots, m0, m, []) && RootsMarked(l, roots, m)
    ensures o in m <==> o in m0 || Reachable(l, mem, roots, m0, o)
  {
    if Reachable(l, mem, roots, m0, o) {
      var p :| IsPath(l, mem, roots, m0, p) && p[|p| - 1] == o;
      ClosedHoldsPath(l, mem, roots, m0, m, p);
    }
  }

  // ----- One scan -----

  ghost predicate NoneIn(s: seq<nat>, m: set<nat>) { forall x :: x in s ==> x !in m }

  /** Number of words the loop visits in an object of `size` bytes. */
  function Words(size: nat): nat { (size + 7) / 8 }

  /**
   What scanning the first `n` words of `o` did: `pushed` lists, once each, the
   children found there that were not marked before.
   */
  ghost predicate Batch(l: Layout, mem: nat -> nat, o: nat, before: set<nat>, after: set<nat>, pushed: seq<nat>, n: nat) {
    && after == before + Elems(pushed)
    && NoneIn(pushed, before) && NoRepeats(pushed)
    && (forall x :: x in pushed ==> exists k: nat :: k < n && Child(l, mem, o, k) == T.Some(x))
    && (forall k: nat :: k < n && Child(l, mem, o, k).Some? ==> Child(l, mem, o, k).value in after)
  }

  lemma BatchStep(l: Layout, mem: nat -> nat, o: nat, before: set<nat>, after: set<nat>, pushed: seq<nat>, k: nat)
    requires Batch(l, mem, o, before, after, pushed, k)
    ensures
      var c := Child(l, mem, o, k);
      if c.None? || c.value in after then Batch(l, mem, o, before, after, pushed, k + 1)
      else Batch(l, mem, o, before, after + {c.value}, pushed + [c.value], k + 1)
  {
    var c := Child(l, mem, o, k);
    if c.Some? && c.value !in after {
      var pushed' := pushed + [c.value];
      assert Elems(pushed') == Elems(pushed) + {c.value};
      assert c.value !in Elems(pushed);
      forall x | x in pushed' ensures exists j: nat :: j < k + 1 && Child(l, mem, o, j) == T.Some(x) {
        if x == c.value { assert Child(l, mem, o, k) == T.Some(x); }
      }
    } else {
      forall x | x in pushed ensures exists j: nat :: j < k + 1 && Child(l, mem, o, j) == T.Some(x) {
        var j: nat :| j < k && Child(l, mem, o, j) == T.Some(x);
      }
    }
  }
}
