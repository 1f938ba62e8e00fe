/**
 The small-object allocator on its own data: sliders and sizes in the block
 headers, bitmaps, linked lists of block nodes and the cache of the running
 thread (small-allocator.c, sweep_small_heap in sweep.c).  Every method performs
 steps of SmallMachine.dfy for thread `ME`.
 */
module SmallHeap {
  import opened Sequences
  import opened Config
  import opened SmallMachine
  import opened SmallRuns
  import opened Bitmap

  const ME: nat := 0
  const NULL: int := -1
  const SIZES: nat := MAX_OBJECT_SIZE + 1

  // ----- Linked lists of block nodes -----

  /** From `head` the `next` links visit exactly the blocks of `l`. */
  ghost predicate IsList(next: seq<int>, head: int, l: seq<nat>)
    decreases |l|
  {
    if l == [] then head == NULL
    else head == l[0] && l[0] < |next| && IsList(next, next[l[0]], l[1..])
  }

  lemma {:induction false} IsListFrame(next: seq<int>, next': seq<int>, head: int, l: seq<nat>)
    requires IsList(next, head, l) && |next'| == |next|
    requires forall b :: b in l && b < |next| ==> next'[b] == next[b]
    ensures IsList(next', head, l)
    decreases |l|
  {
    if l != [] { IsListFrame(next, next', next[l[0]], l[1..]); }
  }

  /** The two kinds of list: the empty list, and the segregated list of one size. */
  const EMPTY: int := -1

  predicate Belongs(k: BlockState, list: int) {
    if list == EMPTY then k.home == InEmpty else k.home == InSegreg && k.size == list
  }

  /** `l` lists, once each, exactly the blocks that belong to the list. */
  ghost predicate Lists(l: seq<nat>, blocks: seq<BlockState>, list: int) {
    && NoRepeats(l)
    && (forall b: nat :: b in l <==> b < |blocks| && Belongs(blocks[b], list))
  }

  lemma TailMembers(l: seq<nat>, b: nat)
    requires l != [] && NoRepeats(l)
    ensures NoRepeats(l[1..]) && (b in l[1..] <==> b in l && b != l[0])
  {
    assert l == [l[0]] + l[1..];
    if b in l[1..] {
      var j :| 0 <= j < |l[1..]| && l[1..][j] == b;
      assert l[j + 1] == b;
    }
  }

  /** Popping the head while its block moves elsewhere. */
  lemma ListsPop(l: seq<nat>, blocks: seq<BlockState>, list: int, k: BlockState)
    requires l != [] && Lists(l, blocks, list) && !Belongs(k, list)
    ensures l[0] < |blocks| && Lists(l[1..], blocks[l[0] := k], list)
  {
    assert l[0] in l;
    forall b: nat ensures b in l[1..] <==> b < |blocks| && Belongs(blocks[l[0] := k][b], list) { TailMembers(l, b); }
  }

  /** A change of one block that neither leaves nor joins a list. */
  lemma ListsSame(l: seq<nat>, blocks: seq<BlockState>, list: int, b: nat, k: BlockState)
    requires Lists(l, blocks, list) && b < |blocks|
    requires Belongs(blocks[b], list) == Belongs(k, list)
    ensures Lists(l, blocks[b := k], list)
  {
  }

  ghost function Range(a: nat, n: nat): seq<nat>
    decreases n - a
  {
    if a >= n then [] else [a] + Range(a + 1, n)
  }

  lemma {:induction false} RangeIsList(next: seq<int>, a: nat, n: nat)
    requires a <= n == |next| && forall b :: 0 <= b < n ==> next[b] == if b + 1 < n then b + 1 else NULL
    ensures IsList(next, if a < n then a else NULL, Range(a, n))
    decreases n - a
  {
    if a < n {
      RangeIsList(next, a + 1, n);
      assert Range(a, n)[1..] == Range(a + 1, n);
    }
  }

  lemma {:induction false} RangeLists(a: nat, n: nat)
    ensures NoRepeats(Range(a, n))
    ensures forall b: nat :: b in Range(a, n) <==> a <= b < n
    decreases n - a
  {
    if a < n {
      RangeLists(a + 1, n);
      var tl := Range(a + 1, n);
      forall i, j | 0 <= i < j < |Range(a, n)| ensures Range(a, n)[i] != Range(a, n)[j] {
        assert tl[j - 1] in tl;
      }
    }
  }

  // ----- Representation, on the contents of the arrays -----

  ghost predicate EmptyOk(next: seq<int>, head: int, l: seq<nat>, blocks: seq<BlockState>) {
    IsList(next, head, l) && Lists(l, blocks, EMPTY)
  }

  ghost predicate SegOk(next: seq<int>, heads: seq<int>, ls: seq<seq<nat>>, blocks: seq<BlockState>) {
    && |heads| == SIZES && |ls| == SIZES
    && forall s: nat :: s < SIZES ==> IsList(next, heads[s], ls[s]) && Lists(ls[s], blocks, s)
  }

  /** The cache holds, for each size, the block the model says; no other thread has a block. */
  ghost predicate CacheOk(cache: seq<int>, blocks: seq<BlockState>) {
    && |cache| == SIZES
    && (forall s: nat :: s < SIZES && cache[s] != NULL ==>
          0 <= cache[s] < |blocks| && blocks[cache[s]].home == Cached(ME) && blocks[cache[s]].size == s)
    && (forall b :: 0 <= b < |blocks| && blocks[b].home.Cached? ==>
          blocks[b].home == Cached(ME) && SizeOk(blocks[b].size) && cache[blocks[b].size] == b)
    && (forall b :: 0 <= b < |blocks| && blocks[b].home.Held? ==> blocks[b].home == Held(ME))
  }

  ghost predicate HeadersOk(start: nat, slider: seq<nat>, objSize: seq<nat>, blocks: seq<BlockState>) {
    && |slider| == |blocks| && |objSize| == |blocks|
    && (forall b :: 0 <= b < |blocks| ==>
          objSize[b] == blocks[b].size && slider[b] == SlotAddr(start, b, blocks[b].size, blocks[b].pos))
  }

  /** The contents of all arrays and list heads, with the blocks each list visits. */
  datatype Image = Image(start: nat, slider: seq<nat>, objSize: seq<nat>, next: seq<int>, emptyHead: int,
                         emptyList: seq<nat>, segreg: seq<int>, segList: seq<seq<nat>>, cache: seq<int>)

  /** They hold what the model state says. */
  ghost predicate Shows(i: Image, blocks: seq<BlockState>) {
    && HeadersOk(i.start, i.slider, i.objSize, blocks)
    && EmptyOk(i.next, i.emptyHead, i.emptyList, blocks)
    && SegOk(i.next, i.segreg, i.segList, blocks)
    && CacheOk(i.cache, blocks)
  }

  lemma PopEmpty(next: seq<int>, head: int, l: seq<nat>, blocks: seq<BlockState>, k: BlockState)
    requires EmptyOk(next, head, l, blocks) && head != NULL && !Belongs(k, EMPTY) && |next| == |blocks|
    ensures l != [] && head == l[0] && l[0] < |blocks| && blocks[l[0]].home == InEmpty
    ensures EmptyOk(next[l[0] := NULL], next[l[0]], l[1..], blocks[l[0] := k])
  {
    ListsPop(l, blocks, EMPTY, k);
    assert l[0] in l;
    forall b: nat | b in l[1..] ensures b != l[0] { TailMembers(l, b); }
    IsListFrame(next, next[l[0] := NULL], next[l[0]], l[1..]);
  }

  lemma EmptySame(next: seq<int>, head: int, l: seq<nat>, blocks: seq<BlockState>, b: nat, k: BlockState)
    requires EmptyOk(next, head, l, blocks) && b < |blocks| && Belongs(blocks[b], EMPTY) == Belongs(k, EMPTY)
    ensures EmptyOk(next, head, l, blocks[b := k])
  {
    ListsSame(l, blocks, EMPTY, b, k);
  }

  lemma SegSame(next: seq<int>, heads: seq<int>, ls: seq<seq<nat>>, blocks: seq<BlockState>, b: nat, k: BlockState)
    requires SegOk(next, heads, ls, blocks) && b < |blocks| && !blocks[b].home.InSegreg? && !k.home.InSegreg?
    ensures SegOk(next, heads, ls, blocks[b := k])
  {
    forall s: nat | s < SIZES ensures Lists(ls[s], blocks[b := k], s) { ListsSame(ls[s], blocks, s, b, k); }
  }

  /** Unlinking a block that is on no segregated list. */
  lemma SegUnlinked(next: seq<int>, heads: seq<int>, ls: seq<seq<nat>>, blocks: seq<BlockState>, b: nat)
    requires SegOk(next, heads, ls, blocks) && b < |blocks| == |next| && !blocks[b].home.InSegreg?
    ensures SegOk(next[b := NULL], heads, ls, blocks)
  {
    forall s: nat | s < SIZES ensures IsList(next[b := NULL], heads[s], ls[s]) {
      assert Lists(ls[s], blocks, s);
      IsListFrame(next, next[b := NULL], heads[s], ls[s]);
    }
  }

  lemma PopSeg(next: seq<int>, heads: seq<int>, ls: seq<seq<nat>>, blocks: seq<BlockState>, size: nat, k: BlockState)
    requires SegOk(next, heads, ls, blocks) && size < SIZES && heads[size] != NULL && !k.home.InSegreg? && |next| == |blocks|
    ensures ls[size] != [] && heads[size] == ls[size][0] && ls[size][0] < |blocks|
    ensures var b := ls[size][0];
      && blocks[b].home == InSegreg && blocks[b].size == size
      && SegOk(next, heads[size := next[b]], ls[size := ls[size][1..]], blocks[b := k])
  {
    assert IsList(next, heads[size], ls[size]) && Lists(ls[size], blocks, size);
    var b := ls[size][0];
    assert b in ls[size];
    var ls' := ls[size := ls[size][1..]];
    forall s: nat | s < SIZES ensures Lists(ls'[s], blocks[b := k], s) {
      assert Lists(ls[s], blocks, s);
      if s == size { ListsPop(ls[s], blocks, s, k); } else { ListsSame(ls[s], blocks, s, b, k); }
    }
  }

  lemma SegNone(next: seq<int>, heads: seq<int>, ls: seq<seq<nat>>, blocks: seq<BlockState>, size: nat)
    requires SegOk(next, heads, ls, blocks) && size < SIZES && heads[size] == NULL
    ensures ls[size] == []
    ensures forall b :: 0 <= b < |blocks| && blocks[b].home == InSegreg ==> blocks[b].size != size
  {
    assert IsList(next, heads[size], ls[size]) && Lists(ls[size], blocks, size);
    forall b: nat | b < |blocks| && blocks[b].home == InSegreg ensures blocks[b].size != size { assert b !in ls[size]; }
  }

  lemma CacheSame(cache: seq<int>, blocks: seq<BlockState>, b: nat, k: BlockState)
    requires CacheOk(cache, blocks) && b < |blocks|
    requires if blocks[b].home.Cached? then k.home == blocks[b].home && k.size == blocks[b].size
             else !k.home.Cached? && (k.home.Held? ==> k.home == Held(ME))
    ensures CacheOk(cache, blocks[b := k])
  {
  }

  ghost predicate NoneCached(cache: seq<int>) { forall s :: 0 <= s < |cache| ==> cache[s] == NULL }

  function FreshBlocks(count: nat): seq<BlockState> { seq(count, _ => BlockState(InEmpty, 0, 0, 0)) }

  /** Nothing is allocated yet and every block is on the empty list. */
  lemma FreshHeap(i: Image, count: nat)
    requires |i.next| == count && forall b :: 0 <= b < count ==> i.next[b] == if b + 1 < count then b + 1 else NULL
    requires i.emptyHead == (if count > 0 then 0 else NULL) && i.emptyList == Range(0, count)
    requires |i.segreg| == SIZES && (forall s :: 0 <= s < SIZES ==> i.segreg[s] == NULL)
    requires |i.segList| == SIZES && (forall s :: 0 <= s < SIZES ==> i.segList[s] == [])
    requires |i.cache| == SIZES && NoneCached(i.cache)
    requires HeadersOk(i.start, i.slider, i.objSize, FreshBlocks(count))
    ensures Shows(i, FreshBlocks(count)) && Inv(Small(FreshBlocks(count), {}, {}, map[]))
  {
    RangeIsList(i.next, 0, count);
    RangeLists(0, count);
  }

  lemma HeadersPut(start: nat, slider: seq<nat>, objSize: seq<nat>, blocks: seq<BlockState>, b: nat, k: BlockState)
    requires HeadersOk(start, slider, objSize, blocks) && b < |blocks|
    ensures HeadersOk(start, slider[b := SlotAddr(start, b, k.size, k.pos)], objSize[b := k.size], blocks[b := k])
  {
  }

  /** Taking the first empty block, on the contents of the arrays. */
  lemma NewBlockRep(i: Image, s: Small, size: nat)
    requires Shows(i, s.blocks) && |i.next| == |s.blocks|
    requires Inv(s) && PcOf(s, ME) == NeedEmpty(size) && SizeOk(size) && i.emptyHead != NULL
    ensures 0 <= i.emptyHead < |s.blocks| && Enabled(s, TakeEmpty(ME, i.emptyHead)) && i.emptyList != []
    ensures var (s', b) := (Apply(s, TakeEmpty(ME, i.emptyHead)), i.emptyHead);
      && Shows(i.(slider := i.slider[b := ObjectsAddr(i.start, b)], objSize := i.objSize[b := size],
                  next := i.next[b := NULL], emptyHead := i.next[b], emptyList := i.emptyList[1..]), s'.blocks)
      && Inv(s') && PcOf(s', ME) == Found(size, b, false) && s'.used == s.used
      && |s'.blocks| == |s.blocks| && s'.marks == set x | x in s.marks && x.block != b
  {
    var (k, b) := (BlockState(Held(ME), size, 0, 0), i.emptyHead);
    PopEmpty(i.next, b, i.emptyList, s.blocks, k);
    SegUnlinked(i.next, i.segreg, i.segList, s.blocks, b);
    SegSame(i.next[b := NULL], i.segreg, i.segList, s.blocks, b, k);
    CacheSame(i.cache, s.blocks, b, k);
    HeadersPut(i.start, i.slider, i.objSize, s.blocks, b, k);
    StepKeeps(s, TakeEmpty(ME, b));
  }

  /** Taking the first block of a segregated list. */
  lemma TakeRep(i: Image, s: Small, size: nat)
    requires Shows(i, s.blocks) && |i.next| == |s.blocks|
    requires Inv(s) && PcOf(s, ME) == NeedBlock(size) && SizeOk(size) && i.segreg[size] != NULL
    ensures 0 <= i.segreg[size] < |s.blocks| && Enabled(s, TakeSegreg(ME, i.segreg[size])) && i.segList[size] != []
    ensures var (s', b) := (Apply(s, TakeSegreg(ME, i.segreg[size])), i.segreg[size]);
      && Shows(i.(segreg := i.segreg[size := i.next[b]], segList := i.segList[size := i.segList[size][1..]]), s'.blocks)
      && Inv(s') && PcOf(s', ME) == Scanning(size, b, s'.blocks[b].pos, false)
      && s'.used == s.used && s'.marks == s.marks && |s'.blocks| == |s.blocks|
  {
    var b := i.segreg[size];
    var k := s.blocks[i.segList[size][0]].(home := Held(ME));
    PopSeg(i.next, i.segreg, i.segList, s.blocks, size, k);
    EmptySame(i.next, i.emptyHead, i.emptyList, s.blocks, b, k);
    CacheSame(i.cache, s.blocks, b, k);
    HeadersPut(i.start, i.slider, i.objSize, s.blocks, b, k);
    HeadersSame(i.start, i.slider, i.objSize, s.blocks, b);
    StepKeeps(s, TakeSegreg(ME, b));
  }

  lemma HeadersSame(start: nat, slider: seq<nat>, objSize: seq<nat>, blocks: seq<BlockState>, b: nat)
    requires HeadersOk(start, slider, objSize, blocks) && b < |blocks|
    ensures slider[b := SlotAddr(start, b, blocks[b].size, blocks[b].pos)] == slider && objSize[b := blocks[b].size] == objSize
  {
  }

  lemma CacheDrop(cache: seq<int>, blocks: seq<BlockState>, b: nat, k: BlockState, fromCache: bool)
    requires CacheOk(cache, blocks) && b < |blocks| && SizeOk(blocks[b].size) && !k.home.Cached? && !k.home.Held?
    requires blocks[b].home == if fromCache then Cached(ME) else Held(ME)
    ensures CacheOk(if fromCache then cache[blocks[b].size := NULL] else cache, blocks[b := k])
  {
  }

  lemma NextSlot(start: nat, b: nat, size: nat, i: nat)
    ensures SlotAddr(start, b, size, i + 1) == SlotAddr(start, b, size, i) + Align(size)
    ensures SlotAddr(start, b, size, i + 1) >= start + BLOCK_SIZE * b + BLOCK_SIZE <==> Align(size) * (i + 1) >= OBJECT_AREA
  {
    MulNext(Align(size), i);
  }

  /** A block that stays off the lists changes its state, with its header and the cache. */
  lemma OffListsRep(i: Image, blocks: seq<BlockState>, b: nat, k: BlockState, cache: seq<int>)
    requires Shows(i, blocks) && b < |blocks| && CacheOk(cache, blocks[b := k])
    requires !blocks[b].home.InEmpty? && !blocks[b].home.InSegreg? && !k.home.InEmpty? && !k.home.InSegreg?
    ensures Shows(i.(slider := i.slider[b := SlotAddr(i.start, b, k.size, k.pos)], objSize := i.objSize[b := k.size],
                     cache := cache), blocks[b := k])
    ensures k.size == blocks[b].size ==> i.objSize[b := k.size] == i.objSize
    ensures k.size == blocks[b].size && k.pos == blocks[b].pos ==> i.slider[b := SlotAddr(i.start, b, k.size, k.pos)] == i.slider
  {
    EmptySame(i.next, i.emptyHead, i.emptyList, blocks, b, k);
    SegSame(i.next, i.segreg, i.segList, blocks, b, k);
    HeadersPut(i.start, i.slider, i.objSize, blocks, b, k);
    HeadersSame(i.start, i.slider, i.objSize, blocks, b);
  }

  /** The slider passes a survivor, on the contents of the arrays. */
  lemma PassRep(i: Image, s: Small, size: nat, b: nat, at: nat, fromCache: bool)
    requires Shows(i, s.blocks) && Inv(s) && PcOf(s, ME) == Scanning(size, b, at, fromCache)
    requires SizeOk(size) && b < |s.blocks| && at < Slots(size) && Slot(b, at) in s.marks
    ensures i.objSize[b] == size && s.blocks[b].size == size && Enabled(s, Pass(ME))
    ensures
      var s' := Apply(s, Pass(ME));
      && Shows(i, s'.blocks) && Inv(s')
      && s'.used == s.used && s'.marks == s.marks - {Slot(b, at)} && |s'.blocks| == |s.blocks|
      && PcOf(s', ME) == Scanning(size, b, at + 1, fromCache)
  {
    assert PcOk(s, ME);
    StepKeeps(s, Pass(ME));
    var k := s.blocks[b].(front := at + 1);
    CacheSame(i.cache, s.blocks, b, k);
    OffListsRep(i, s.blocks, b, k, i.cache);
  }

  /** The scan stops at a clear bit: the slider is stored. */
  lemma HitRep(i: Image, s: Small, size: nat, b: nat, at: nat, fromCache: bool)
    requires Shows(i, s.blocks) && Inv(s) && PcOf(s, ME) == Scanning(size, b, at, fromCache)
    requires SizeOk(size) && b < |s.blocks| && at < Slots(size) && Slot(b, at) !in s.marks
    ensures Enabled(s, Hit(ME))
    ensures
      var s' := Apply(s, Hit(ME));
      && Shows(i.(slider := i.slider[b := SlotAddr(i.start, b, size, at)]), s'.blocks) && Inv(s')
      && s'.used == s.used && s'.marks == s.marks && |s'.blocks| == |s.blocks|
      && PcOf(s', ME) == Found(size, b, fromCache)
  {
    assert PcOk(s, ME);
    StepKeeps(s, Hit(ME));
    var k := s.blocks[b].(pos := at);
    CacheSame(i.cache, s.blocks, b, k);
    OffListsRep(i, s.blocks, b, k, i.cache);
  }

  /** A failed scan, on the contents of the arrays. */
  lemma MissRep(i: Image, s: Small, size: nat, b: nat, at: nat, fromCache: bool)
    requires Shows(i, s.blocks) && Inv(s) && PcOf(s, ME) == Scanning(size, b, at, fromCache)
    requires SizeOk(size) && b < |s.blocks| && at >= Slots(size)
    ensures Enabled(s, Miss(ME))
    ensures
      var s' := Apply(s, Miss(ME));
      && Shows(i.(cache := if fromCache then i.cache[size := NULL] else i.cache), s'.blocks) && Inv(s')
      && s'.used == s.used && s'.marks == s.marks && |s'.blocks| == |s.blocks| && PcOf(s', ME) == NeedBlock(size)
  {
    assert PcOk(s, ME);
    StepKeeps(s, Miss(ME));
    var k := s.blocks[b].(home := Retired);
    CacheDrop(i.cache, s.blocks, b, k, fromCache);
    OffListsRep(i, s.blocks, b, k, if fromCache then i.cache[size := NULL] else i.cache);
  }

  /** The block a thread finishes with stays in its cache or is retired. */
  lemma CacheFinish(cache: seq<int>, s: Small, b: nat, size: nat, fromCache: bool)
    requires Inv(s) && CacheOk(cache, s.blocks) && PcOf(s, ME) == Found(size, b, fromCache)
    ensures SizeOk(size) && b < |s.blocks| && Enabled(s, Finish(ME))
    ensures var k := Apply(s, Finish(ME)).blocks[b];
      && (k.home == Retired || k.home == Cached(ME))
      && CacheOk(cache[size := if k.home == Retired then NULL else b], s.blocks[b := k])
  {
    assert PcOk(s, ME);
    forall c | 0 <= c < |s.blocks| && c != b && s.blocks[c].home.Cached? ensures s.blocks[c].size != size {
      assert HomeOk(s, c);
    }
  }

  /** What the last step does to the model state. */
  lemma FinishStep(s: Small, b: nat, size: nat, fromCache: bool)
    requires Inv(s) && PcOf(s, ME) == Found(size, b, fromCache)
    ensures SizeOk(size) && b < |s.blocks| && Enabled(s, Finish(ME)) && s.blocks[b].size == size
    ensures !s.blocks[b].home.InEmpty? && !s.blocks[b].home.InSegreg?
    ensures
      var (s', at) := (Apply(s, Finish(ME)), s.blocks[b].pos);
      && at < Slots(size) && Slot(b, at) !in s.used && s'.used == s.used + {Slot(b, at)}
      && s'.marks == s.marks && PcOf(s', ME) == Idle && Inv(s')
  {
    assert PcOk(s, ME);
    StepKeeps(s, Finish(ME));
    HandedIsNew(s, Finish(ME));
  }

  /** The last step of an allocation, on the contents of the arrays. */
  lemma FinishRep(i: Image, s: Small, b: nat, size: nat, fromCache: bool)
    requires Shows(i, s.blocks) && Inv(s) && PcOf(s, ME) == Found(size, b, fromCache)
    ensures SizeOk(size) && b < |s.blocks| && Enabled(s, Finish(ME)) && s.blocks[b].size == size
    ensures
      var s' := Apply(s, Finish(ME));
      var at := s.blocks[b].pos;
      var position := SlotAddr(i.start, b, size, at) + Align(size);
      var cached := if position >= i.start + BLOCK_SIZE * b + BLOCK_SIZE then NULL else b;
      && i.slider[b] == SlotAddr(i.start, b, size, at)
      && at < Slots(size) && Slot(b, at) !in s.used && s'.used == s.used + {Slot(b, at)}
      && s'.marks == s.marks && PcOf(s', ME) == Idle && |s'.blocks| == |s.blocks| && s'.blocks[b].size == size
      && Shows(i.(slider := i.slider[b := position], cache := i.cache[size := cached]), s'.blocks) && Inv(s')
  {
    FinishStep(s, b, size, fromCache);
    var k := Apply(s, Finish(ME)).blocks[b];
    CacheFinish(i.cache, s, b, size, fromCache);
    NextSlot(i.start, b, size, s.blocks[b].pos);
    var position := SlotAddr(i.start, b, size, s.blocks[b].pos) + Align(size);
    var cached := if position >= i.start + BLOCK_SIZE * b + BLOCK_SIZE then NULL else b;
    assert k.size == size && SlotAddr(i.start, b, k.size, k.pos) == position;
    assert cached == if k.home == Retired then NULL else b;
    OffListsRep(i, s.blocks, b, k, i.cache[size := cached]);
    assert Apply(s, Finish(ME)).blocks == s.blocks[b := k];
  }

  /** The list `l` grows at its head by block `b`, whose state becomes `k`. */
  lemma {:induction false} PushList(next: seq<int>, head: int, l: seq<nat>, blocks: seq<BlockState>, list: int, b: nat, k: BlockState)
    requires IsList(next, head, l) && Lists(l, blocks, list) && b < |blocks| == |next|
    requires !Belongs(blocks[b], list) && Belongs(k, list)
    ensures IsList(next[b := head], b, [b] + l) && Lists([b] + l, blocks[b := k], list)
  {
    assert b !in l;
    IsListFrame(next, next[b := head], head, l);
    assert ([b] + l)[1..] == l;
  }

  /** Relinking block `b`, which is on none of the segregated lists and joins none. */
  lemma SegAside(next: seq<int>, heads: seq<int>, ls: seq<seq<nat>>, blocks: seq<BlockState>, b: nat, link: int, k: BlockState)
    requires SegOk(next, heads, ls, blocks) && b < |blocks| == |next| && !blocks[b].home.InSegreg? && !k.home.InSegreg?
    ensures SegOk(next[b := link], heads, ls, blocks[b := k])
  {
    forall s: nat | s < SIZES ensures IsList(next[b := link], heads[s], ls[s]) && Lists(ls[s], blocks[b := k], s) {
      assert Lists(ls[s], blocks, s);
      IsListFrame(next, next[b := link], heads[s], ls[s]);
      ListsSame(ls[s], blocks, s, b, k);
    }
  }

  lemma PushSeg(next: seq<int>, heads: seq<int>, ls: seq<seq<nat>>, blocks: seq<BlockState>, b: nat, k: BlockState)
    requires SegOk(next, heads, ls, blocks) && b < |blocks| == |next|
    requires !blocks[b].home.InSegreg? && k.home == InSegreg && k.size < SIZES
    ensures var s := k.size; SegOk(next[b := heads[s]], heads[s := b], ls[s := [b] + ls[s]], blocks[b := k])
  {
    var next' := next[b := heads[k.size]];
    var ls' := ls[k.size := [b] + ls[k.size]];
    forall s: nat | s < SIZES ensures IsList(next', heads[k.size := b][s], ls'[s]) && Lists(ls'[s], blocks[b := k], s) {
      assert IsList(next, heads[s], ls[s]) && Lists(ls[s], blocks, s);
      if s == k.size {
        PushList(next, heads[s], ls[s], blocks, s, b, k);
      } else {
        assert b !in ls[s];
        IsListFrame(next, next', heads[s], ls[s]);
        ListsSame(ls[s], blocks, s, b, k);
      }
    }
  }

  /** Relinking a block that is not on the empty list and does not join it. */
  lemma EmptyAside(next: seq<int>, head: int, l: seq<nat>, blocks: seq<BlockState>, b: nat, link: int, k: BlockState)
    requires EmptyOk(next, head, l, blocks) && b < |blocks| == |next| && !blocks[b].home.InEmpty? && !k.home.InEmpty?
    ensures EmptyOk(next[b := link], head, l, blocks[b := k])
  {
    IsListFrame(next, next[b := link], head, l);
    ListsSame(l, blocks, EMPTY, b, k);
  }

  // ----- The sweep, block by block -----

  /** The state of the blocks when the sweep has done the first `n` of them. */
  ghost function SweptUpTo(blocks: seq<BlockState>, marks: set<Slot>, n: nat): seq<BlockState> {
    seq(|blocks|, b requires 0 <= b < |blocks| =>
      if b < n then Swept(blocks[b], b, marks) else blocks[b].(home := Retired))
  }

  lemma SweptStep(blocks: seq<BlockState>, marks: set<Slot>, n: nat)
    requires n < |blocks|
    ensures SweptUpTo(blocks, marks, n + 1) == SweptUpTo(blocks, marks, n)[n := Swept(blocks[n], n, marks)]
  {
  }

  lemma SweptAll(s: Small)
    ensures SweptUpTo(s.blocks, s.marks, |s.blocks|) == Sweep(s).blocks
  {
  }

  /** Marks of the blocks that are on the segregated lists of sizes below `n`. */
  ghost predicate ListedBelow(blocks: seq<BlockState>, b: nat, n: nat) {
    b < |blocks| && blocks[b].home == InSegreg && 1 <= blocks[b].size < n
  }

  ghost predicate ClearedBelow(marks: set<Slot>, before: set<Slot>, blocks: seq<BlockState>, n: nat) {
    forall x :: x in marks <==> x in before && !ListedBelow(blocks, x.block, n)
  }

  lemma ClearedAll(s: Small, marks: set<Slot>)
    requires Inv(s)
    ensures ClearedBelow(s.marks, s.marks, s.blocks, 1)
    ensures ClearedBelow(marks, s.marks, s.blocks, SIZES) ==> marks == Fill(s).marks
  {
    forall b | 0 <= b < |s.blocks| && s.blocks[b].home == InSegreg ensures SizeOk(s.blocks[b].size) {
      assert BlockOk(s.blocks[b], b, s.marks, s.used);
    }
  }

  // ----- What an allocation promises -----

  /** Every whole slot of every block of the size is in use. */
  ghost predicate Exhausted(s: Small, size: nat) {
    SizeOk(size) && forall b, i: nat :: 0 <= b < |s.blocks| && s.blocks[b].size == size && i < Slots(size) ==> Slot(b, i) in s.used
  }

  /**
   The call of this thread took the heap from `s` to `s'` as a run of the machine.
   A non-NULL result is the address of the one slot the run handed out, and shares no
   byte with a slot in use before; NULL means that the size has run out.  Blocks
   with a slot in use keep their size either way.
   */
  ghost predicate Served(start: nat, s: Small, s': Small, size: nat, res: nat, slot: Slot) {
    && SizesKept(s, s')
    && if res != 0 then
         && Ran(s, ME, s', [slot]) && slot !in s.used && s'.used == s.used + {slot}
         && SizeOk(size) && slot.block < |s'.blocks| && s'.blocks[slot.block].size == size && slot.index < Slots(size)
         && res == SlotAddr(start, slot.block, size, slot.index) && Apart(start, s, res, Align(size))
       else RanToNull(s, ME, s') && s'.used == s.used && Exhausted(s', size)
  }

  /** Marks are left only in cached blocks and on the partial slots of blocks that were used up. */
  ghost predicate MarksAfterNull(s: Small) {
    forall x :: x in s.marks ==> x.block < |s.blocks| && (s.blocks[x.block].home == Cached(ME) || LeftOver(s, x))
  }

  class SmallAllocator {
    const start: nat
    const count: nat
    const slider: array<nat>
    const objSize: array<nat>
    const next: array<int>
    const segreg: array<int>
    const cache: array<int>
    const bits: Bitmaps
    var emptyHead: int

    ghost var st: Small
    ghost var emptyList: seq<nat>
    ghost var segList: seq<seq<nat>>

    ghost predicate Shape()
      reads this
    {
      && slider.Length == count && objSize.Length == count && next.Length == count && bits.blocks == count
      && |st.blocks| == count
      && slider != objSize && next != segreg && next != cache && segreg != cache
      && bits.bytes as object !in {slider as object, objSize as object, next as object, segreg as object, cache as object}
    }

    /** The arrays hold what the model state says. */
    ghost predicate Layout()
      reads this, slider, objSize, next, segreg, cache, bits, bits.bytes
    {
      Shape() && bits.Valid() && bits.marks == st.marks && Shows(Now(), st.blocks)
    }

    ghost function Now(): Image
      reads this, slider, objSize, next, segreg, cache
    {
      Image(start, slider[..], objSize[..], next[..], emptyHead, emptyList, segreg[..], segList, cache[..])
    }

    /** Between a sweep and the first NULL. */
    ghost predicate Valid()
      reads this, slider, objSize, next, segreg, cache, bits, bits.bytes
    {
      Layout() && Inv(st)
    }

    /** `__init_small_allocator`: every block is on the empty list, in address order. */
    constructor (start: nat, count: nat)
      ensures Valid() && this.start == start && this.count == count
      ensures fresh({slider, objSize, next, segreg, cache, bits, bits.bytes})
      ensures st.used == {} && st.marks == {} && st.pcs == map[] && emptyList == Range(0, count)
    {
      this.start, this.count := start, count;
      slider := new nat[count](b => if b < 0 then 0 else start + BLOCK_SIZE * b + BLOCK_HEADER_SIZE);
      objSize := new nat[count](_ => 0);
      next := new int[count](b => if b + 1 < count then b + 1 else NULL);
      segreg := new int[SIZES](_ => NULL);
      cache := new int[SIZES](_ => NULL);
      bits := new Bitmaps(count);
      emptyHead := if count > 0 then 0 else NULL;
      st := Small(FreshBlocks(count), {}, {}, map[]);
      emptyList := Range(0, count);
      segList := seq(SIZES, _ => []);
      new;
      FreshHeap(Now(), count);
    }

    // ----- One model step at a time -----

    /** Looks into the cache. */
    method LookInCache(size: nat) returns (b: int)
      requires Valid() && SizeOk(size) && PcOf(st, ME).Idle?
      modifies this`st
      ensures Valid() && Looked(old(st), ME, st) && st.blocks == old(st.blocks)
      ensures b == NULL ==> PcOf(st, ME) == NeedBlock(size)
      ensures b != NULL ==> ToScan(b, size, true)
    {
      b := cache[size];
      ghost var step := Start(ME, size, if b == NULL then NoBlock else SomeBlock(b));
      StepKeeps(st, step);
      LookedStep(st, step);
      st := Apply(st, step);
    }

    /** `get_block_from_segreg_list`. */
    method GetBlockFromSegregList(size: nat) returns (b: int)
      requires Valid() && PcOf(st, ME) == NeedBlock(size) && SizeOk(size)
      modifies this`st, this`segList, segreg
      ensures Valid() && Looked(old(st), ME, st)
      ensures b == NULL ==> PcOf(st, ME) == NeedEmpty(size) && segList == old(segList)
      ensures b != NULL ==> 0 <= b < count && PcOf(st, ME) == Scanning(size, b, st.blocks[b].pos, false)
      ensures b != NULL ==> |segList[size]| < |old(segList)[size]|
    {
      b := segreg[size];
      if b != NULL {
        ghost var i := Now();
        TakeRep(i, st, size);
        LookedStep(st, TakeSegreg(ME, b));
        ghost var st' := Apply(st, TakeSegreg(ME, b));
        segreg[size] := next[b];
        segList := segList[size := segList[size][1..]];
        st := st';
        assert Now() == i.(segreg := i.segreg[size := i.next[b]], segList := i.segList[size := i.segList[size][1..]]);
      } else {
        SegNone(next[..], segreg[..], segList, st.blocks, size);
        ghost var step := NoSegreg(ME);
        StepKeeps(st, step);
        LookedStep(st, step);
        st := Apply(st, step);
      }
    }

    /** `allocate_new_block` followed by `init_header`; NULL when no block is left. */
    method NewBlock(size: nat) returns (b: int)
      requires Valid() && PcOf(st, ME) == NeedEmpty(size) && SizeOk(size)
      modifies this`st, this`emptyHead, this`emptyList, next, objSize, slider, bits`marks, bits.bytes
      ensures Valid() && Looked(old(st), ME, st)
      ensures b == NULL ==> st == old(st) && emptyList == []
      ensures b != NULL ==> 0 <= b < count && PcOf(st, ME) == Found(size, b, false)
    {
      b := emptyHead;
      LookedNone(st, ME);
      if b == NULL { return; }
      ghost var i := Now();
      NewBlockRep(i, st, size);
      LookedStep(st, TakeEmpty(ME, b));
      ghost var st' := Apply(st, TakeEmpty(ME, b));
      var rest := next[b];
      next[b] := NULL;
      emptyHead, emptyList := rest, emptyList[1..];
      InitHeader(b, size);
      st := st';
      assert Now() == i.(slider := i.slider[b := ObjectsAddr(i.start, b)], objSize := i.objSize[b := size],
                         next := i.next[b := NULL], emptyHead := i.next[b], emptyList := i.emptyList[1..]);
    }

    /** Size, slider and bitmap of a block taken for objects of `size` bytes. */
    method InitHeader(b: nat, size: nat)
      requires Shape() && bits.Valid() && b < count
      modifies objSize, slider, bits`marks, bits.bytes
      ensures objSize[..] == old(objSize[..])[b := size]
      ensures slider[..] == old(slider[..])[b := ObjectsAddr(start, b)]
      ensures bits.Valid() && bits.marks == set x | x in old(bits.marks) && x.block != b
    {
      objSize[b] := size;
      slider[b] := start + BLOCK_SIZE * b + BLOCK_HEADER_SIZE;
      bits.Clear(b);
    }

    /** The bit of the slot at `position`, found through the block's header. */
    method GetBitByAddress(position: nat, ghost b: nat, ghost size: nat, ghost at: nat) returns (bit: bool)
      requires Valid() && SizeOk(size) && b < count && at < Slots(size) && st.blocks[b].size == size
      requires position == SlotAddr(start, b, size, at)
      ensures bit <==> Slot(b, at) in st.marks
    {
      SlotInBlock(start, b, size, at);
      AddressOfSlot(start, b, size, at, position);
      IndexFits(start, position, b, size);
      var block := BlockOf(start, position);
      bit := bits.Get(block, IndexOf(start, position, block, objSize[block]));
    }

    /** A set bit is cleared as the slider passes. */
    method PassSlot(position: nat, b: nat, size: nat, ghost at: nat, ghost fromCache: bool)
      requires Valid() && SizeOk(size) && b < count && at < Slots(size)
      requires PcOf(st, ME) == Scanning(size, b, at, fromCache) && position == SlotAddr(start, b, size, at)
      requires Slot(b, at) in st.marks
      modifies this`st, bits`marks, bits.bytes
      ensures Valid() && Looked(old(st), ME, st) && PcOf(st, ME) == Scanning(size, b, at + 1, fromCache)
    {
      PassRep(Now(), st, size, b, at, fromCache);
      ghost var st' := Apply(st, Pass(ME));
      LookedStep(st, Pass(ME));
      SetBitByAddress(position, false, b, size, at);
      st := st';
    }

    method SetBitByAddress(position: nat, bit: bool, ghost b: nat, ghost size: nat, ghost at: nat)
      requires Shape() && bits.Valid() && SizeOk(size) && b < count && at < Slots(size) && objSize[b] == size
      requires position == SlotAddr(start, b, size, at)
      modifies bits`marks, bits.bytes
      ensures bits.Valid()
      ensures bits.marks == if bit then old(bits.marks) + {Slot(b, at)} else old(bits.marks) - {Slot(b, at)}
    {
      SlotInBlock(start, b, size, at);
      AddressOfSlot(start, b, size, at, position);
      IndexFits(start, position, b, size);
      var block := BlockOf(start, position);
      bits.Set(block, IndexOf(start, position, block, objSize[block]), bit);
    }

    /** A clear bit ends the scan; the slider is stored. */
    method Settle(position: nat, b: nat, size: nat, ghost at: nat, ghost fromCache: bool)
      requires Valid() && SizeOk(size) && b < count && at < Slots(size)
      requires PcOf(st, ME) == Scanning(size, b, at, fromCache) && position == SlotAddr(start, b, size, at)
      requires Slot(b, at) !in st.marks
      modifies this`st, slider
      ensures Valid() && Looked(old(st), ME, st) && PcOf(st, ME) == Found(size, b, fromCache)
    {
      ghost var i := Now();
      HitRep(i, st, size, b, at, fromCache);
      ghost var st' := Apply(st, Hit(ME));
      LookedStep(st, Hit(ME));
      slider[b] := position;
      st := st';
      assert Now() == i.(slider := i.slider[b := position]);
    }

    /** One round of the scan loop. */
    method TrySlot(position: nat, b: nat, size: nat, ghost at: nat, ghost fromCache: bool) returns (found: bool)
      requires Valid() && SizeOk(size) && b < count && at < Slots(size)
      requires PcOf(st, ME) == Scanning(size, b, at, fromCache) && position == SlotAddr(start, b, size, at)
      modifies this`st, slider, bits`marks, bits.bytes
      ensures Valid() && Looked(old(st), ME, st)
      ensures PcOf(st, ME) == if found then Found(size, b, fromCache) else Scanning(size, b, at + 1, fromCache)
    {
      assert PcOk(st, ME);
      var bit := GetBitByAddress(position, b, size, at);
      if bit {
        PassSlot(position, b, size, at, fromCache);
      } else {
        Settle(position, b, size, at, fromCache);
      }
      found := !bit;
    }

    /** A failed scan: the block leaves the cache and is retired. */
    method DropBlock(b: nat, size: nat, fromCache: bool, ghost at: nat)
      requires Valid() && SizeOk(size) && b < count && at >= Slots(size)
      requires PcOf(st, ME) == Scanning(size, b, at, fromCache)
      modifies this`st, cache
      ensures Valid() && Looked(old(st), ME, st) && PcOf(st, ME) == NeedBlock(size)
    {
      ghost var i := Now();
      MissRep(i, st, size, b, at, fromCache);
      ghost var st' := Apply(st, Miss(ME));
      LookedStep(st, Miss(ME));
      if fromCache { cache[size] := NULL; }
      st := st';
      assert Now() == i.(cache := if fromCache then i.cache[size := NULL] else i.cache);
    }

    /**
     The scan loop on block `b`.  On failure the block is dropped: from the cache
     when it came from there, and in any case until the next sweep.
     */
    method Scan(b: nat, size: nat, fromCache: bool) returns (found: bool)
      requires Valid() && SizeOk(size) && ToScan(b, size, fromCache)
      modifies this`st, slider, cache, bits`marks, bits.bytes
      ensures Valid() && Looked(old(st), ME, st)
      ensures PcOf(st, ME) == if found then Found(size, b, fromCache) else NeedBlock(size)
    {
      assert PcOk(st, ME);
      ghost var at;
      found, at := ScanFrom(slider[b], b, size, st.blocks[b].pos, fromCache);
      if !found {
        ghost var s := st;
        DropBlock(b, size, fromCache, at);
        LookedOn(old(st), ME, s, st);
      }
    }

    /** The loop itself, from the slider's position up to the first clear bit or the end of the block. */
    method ScanFrom(slider: nat, b: nat, size: nat, ghost pos: nat, ghost fromCache: bool) returns (found: bool, ghost at: nat)
      requires Valid() && SizeOk(size) && b < count
      requires PcOf(st, ME) == Scanning(size, b, pos, fromCache) && slider == SlotAddr(start, b, size, pos)
      modifies this`st, this.slider, bits`marks, bits.bytes
      ensures Valid() && Looked(old(st), ME, st)
      ensures PcOf(st, ME) == if found then Found(size, b, fromCache) else Scanning(size, b, at, fromCache)
      ensures !found ==> at >= Slots(size)
    {
      var a := Align(size);
      var position := slider;
      at, found := pos, false;
      LookedNone(st, ME);
      while position + a <= start + BLOCK_SIZE * (b + 1)
        invariant Valid() && Looked(old(st), ME, st)
        invariant PcOf(st, ME) == Scanning(size, b, at, fromCache) && position == SlotAddr(start, b, size, at)
        decreases Slots(size) - at
      {
        FitsIff(start, b, size, at);
        ghost var s := st;
        found := TrySlot(position, b, size, at, fromCache);
        LookedOn(old(st), ME, s, st);
        if found { return; }
        NextSlot(start, b, size, at);
        position := position + a;
        at := at + 1;
      }
      FitsIff(start, b, size, at);
      found := false;
    }

    /** The block stays cached unless its slider has reached the end. */
    method Advance(b: nat, size: nat, position: nat)
      requires Shape() && bits.Valid() && b < count && size < cache.Length
      modifies slider, cache
      ensures bits.Valid()
      ensures
        var i := old(Now());
        Now() == i.(slider := i.slider[b := position],
                    cache := i.cache[size := if position >= start + BLOCK_SIZE * b + BLOCK_SIZE then NULL else b])
    {
      cache[size] := if position >= start + BLOCK_SIZE * b + BLOCK_SIZE then NULL else b;
      slider[b] := position;
    }

    /** The end of `allocate_small_object`: the slot at the slider is given out and the slider moves on. */
    method GiveSlot(b: nat, size: nat, ghost fromCache: bool) returns (res: nat, ghost slot: Slot)
      requires Valid() && SizeOk(size) && b < count && PcOf(st, ME) == Found(size, b, fromCache)
      modifies this`st, slider, cache
      ensures Valid() && PcOf(st, ME) == Idle
      ensures slot.block < count && st.blocks[slot.block].size == size && slot.index < Slots(size)
      ensures res == SlotAddr(start, slot.block, size, slot.index)
      ensures slot !in old(st.used) && st.used == old(st.used) + {slot}
      ensures Ran(old(st), ME, st, [slot]) && MarksOk(st)
    {
      FinishRep(Now(), st, b, size, fromCache);
      slot := Slot(b, st.blocks[b].pos);
      LookedNone(st, ME);
      RanFinish(st, ME, st);
      StepKeeps(st, Finish(ME));
      InvMarksOk(Apply(st, Finish(ME)));
      st := Apply(st, Finish(ME));
      res := slider[b];
      Advance(b, size, res + Align(size));
    }

    /** Block `curr` has a free slot at its slider. */
    ghost predicate FoundIn(curr: int, size: nat)
      reads this`st
    {
      0 <= curr < count && PcOf(st, ME).Found? && PcOf(st, ME).size == size && PcOf(st, ME).block == curr
    }

    /** Block `curr` is to be scanned from its slider on. */
    ghost predicate ToScan(curr: int, size: nat, fromCache: bool)
      reads this`st
    {
      && 0 <= curr < count && curr < |st.blocks|
      && PcOf(st, ME) == Scanning(size, curr, st.blocks[curr].pos, fromCache)
    }

    /** A block to work on next: one listed for the size, or else an empty one, which is free from its first slot on. */
    method TakeBlock(size: nat) returns (b: int, isNew: bool)
      requires Valid() && SizeOk(size) && PcOf(st, ME) == NeedBlock(size)
      modifies this`st, this`emptyHead, this`emptyList, this`segList
      modifies slider, objSize, next, segreg, bits`marks, bits.bytes
      ensures Valid() && Looked(old(st), ME, st)
      ensures b == NULL ==> PcOf(st, ME) == NeedEmpty(size) && emptyList == []
      ensures b != NULL && isNew ==> FoundIn(b, size)
      ensures b != NULL && !isNew ==> ToScan(b, size, false) && |segList[size]| < |old(segList)[size]|
    {
      b := GetBlockFromSegregList(size);
      isNew := b == NULL;
      if isNew {
        ghost var s := st;
        b := NewBlock(size);
        LookedOn(old(st), ME, s, st);
      }
    }

    /** The cached block is to be scanned next, or another one looked for. */
    ghost predicate ToSearch(curr: int, size: nat, isCheckingCache: bool)
      reads this`st
    {
      if isCheckingCache then ToScan(curr, size, true) else PcOf(st, ME) == NeedBlock(size)
    }

    /** One round of the search loop: the block at hand, or the next one, is scanned. */
    method SearchRound(curr: int, size: nat, isCheckingCache: bool) returns (next: int, found: bool)
      requires Valid() && SizeOk(size) && ToSearch(curr, size, isCheckingCache)
      modifies this`st, this`emptyHead, this`emptyList, this`segList
      modifies slider, objSize, this.next, segreg, cache, bits`marks, bits.bytes
      ensures Valid() && Looked(old(st), ME, st)
      ensures next == NULL ==> PcOf(st, ME) == NeedEmpty(size) && emptyList == []
      ensures next != NULL ==> if found then FoundIn(next, size) else ToSearch(next, size, false)
      ensures next != NULL && !isCheckingCache && !found ==> |segList[size]| < |old(segList)[size]|
    {
      next := curr;
      ghost var s := st;
      LookedNone(st, ME);
      if !isCheckingCache {
        next, found := TakeBlock(size);
        if next == NULL || found { return; }
        s := st;
      }
      found := Scan(next, size, isCheckingCache);
      LookedOn(old(st), ME, s, st);
    }

    /** The search loop of `allocate_small_object`: a block with a free slot at its slider, or NULL. */
    method FindBlock(size: nat) returns (curr: int)
      requires Valid() && SizeOk(size) && PcOf(st, ME).Idle?
      modifies this`st, this`emptyHead, this`emptyList, this`segList
      modifies slider, objSize, next, segreg, cache, bits`marks, bits.bytes
      ensures Valid() && Looked(old(st), ME, st)
      ensures curr == NULL ==> PcOf(st, ME) == NeedEmpty(size) && emptyList == []
      ensures curr != NULL ==> FoundIn(curr, size)
    {
      curr := LookInCache(size);
      var isCheckingCache := curr != NULL;
      var isBlockFound := false;
      while !isBlockFound
        invariant Valid() && Looked(old(st), ME, st)
        invariant if isBlockFound then FoundIn(curr, size) else ToSearch(curr, size, isCheckingCache)
        decreases !isBlockFound, isCheckingCache, |segList[size]|
      {
        ghost var s := st;
        curr, isBlockFound := SearchRound(curr, size, isCheckingCache);
        LookedOn(old(st), ME, s, st);
        if curr == NULL { return; }
        isCheckingCache := false;
      }
    }

    /** `fill_all_bitmaps_with_zeros`: walks the segregated lists, and only those. */
    method FillAllBitmapsWithZeros()
      requires Valid()
      modifies this`st, bits`marks, bits.bytes
      ensures Layout() && st == Fill(old(st))
    {
      var i := 1;
      ClearedAll(st, st.marks);
      while i < SIZES
        invariant 1 <= i <= SIZES && st == old(st)
        invariant bits.Valid() && ClearedBelow(bits.marks, st.marks, st.blocks, i)
      {
        ClearList(i);
        i := i + 1;
      }
      ClearedAll(st, bits.marks);
      st := Fill(st);
    }

    method ClearList(size: nat)
      requires bits.Valid() && Shape() && SegOk(next[..], segreg[..], segList, st.blocks)
      requires 1 <= size < SIZES && ClearedBelow(bits.marks, st.marks, st.blocks, size)
      modifies bits`marks, bits.bytes
      ensures bits.Valid() && ClearedBelow(bits.marks, st.marks, st.blocks, size + 1)
    {
      ghost var rest := segList[size];
      var curr := segreg[size];
      assert IsList(next[..], segreg[..][size], segList[size]) && Lists(segList[size], st.blocks, size);
      while curr != NULL
        invariant bits.Valid() && IsList(next[..], curr, rest) && NoRepeats(rest)
        invariant forall b :: b in rest ==> b in segList[size]
        invariant forall x :: x in bits.marks <==>
          x in st.marks && !ListedBelow(st.blocks, x.block, size) && (x.block in segList[size] ==> x.block in rest)
        decreases |rest|
      {
        assert curr in rest;
        bits.Clear(curr);
        forall b: nat ensures b in rest[1..] <==> b in rest && b != curr { TailMembers(rest, b); }
        TailMembers(rest, curr);
        curr := next[curr];
        rest := rest[1..];
      }
    }

    /**
     `allocate_small_object`.  The call serves the size as a run of this thread
     does; NULL means in addition that no block is empty.
     */
    method AllocateSmallObject(size: nat) returns (res: nat, ghost slot: Slot)
      requires Valid() && SizeOk(size) && PcOf(st, ME).Idle? && start > 0
      modifies this`st, this`emptyHead, this`emptyList, this`segList
      modifies slider, objSize, next, segreg, cache, bits`marks, bits.bytes
      ensures Layout() && PcOf(st, ME).Idle? && MarksOk(st) && (res != 0 ==> Valid())
      ensures Served(start, old(st), st, size, res, slot)
      ensures res == 0 ==> emptyList == [] && MarksAfterNull(st)
    {
      var curr := FindBlock(size);
      ghost var s := st;
      if curr == NULL {
        GiveNull(size);
        RanKeepsSizes(old(st), ME, s, []);
        res, slot := 0, Slot(0, 0);
      } else {
        res, slot := GiveSlot(curr, size, PcOf(st, ME).fromCache);
        SlotInBlock(start, slot.block, size, slot.index);
        RanGivesFresh(old(st), ME, s, st, slot, start);
      }
    }

    /** The NULL: the bitmaps of the segregated blocks are cleared on the way out. */
    method GiveNull(size: nat)
      requires Valid() && SizeOk(size) && PcOf(st, ME) == NeedEmpty(size) && emptyList == []
      modifies this`st, bits`marks, bits.bytes
      ensures Layout() && MarksOk(st) && Exhausted(st, size)
      ensures Fails(old(st), ME) && st == Fill(old(st)).(pcs := old(st).pcs[ME := Idle])
      ensures MarksAfterNull(st)
    {
      NullState(st, size, cache[..], next[..], emptyHead);
      InvMarksOk(st);
      FillAllBitmapsWithZeros();
      st := st.(pcs := st.pcs[ME := Idle]);
    }

    /** `clear_cache`, as the signal handler runs it. */
    method ClearCache()
      requires Layout()
      modifies this`st, cache
      ensures Layout() && st == Uncached(old(st)) && NoneCached(cache[..])
    {
      var i := 0;
      while i < SIZES
        invariant 0 <= i <= SIZES && (forall s :: 0 <= s < i ==> cache[s] == NULL) && st == old(st)
      {
        cache[i] := NULL;
        i := i + 1;
      }
      UncachedRep(old(Now()), st, cache[..]);
      assert Now() == old(Now()).(cache := cache[..]);
      st := Uncached(st);
    }

    // ----- sweep_small_heap -----

    /** The lists hold exactly the blocks of `cur`, a stage of the sweep. */
    ghost predicate SweepStage(cur: seq<BlockState>)
      reads this, slider, objSize, next, segreg
    {
      && Shape() && |cur| == count
      && HeadersOk(start, slider[..], objSize[..], cur)
      && EmptyOk(next[..], emptyHead, emptyList, cur)
      && SegOk(next[..], segreg[..], segList, cur)
    }

    /**
     Rebuilds every list from the bitmaps: a block without marks is empty, any
     other goes to the list of its size; all sliders start over.
     */
    method SweepSmallHeap()
      requires Layout() && MarksOk(st) && NoneCached(cache[..])
      modifies this`st, this`emptyHead, this`emptyList, this`segList, slider, objSize, next, segreg
      ensures Valid() && st == Sweep(old(st))
    {
      ResetLists();
      SweepBlocks();
      SweptAll(st);
      SweepEstablishes(st);
      st := Sweep(st);
    }

    method SweepBlocks()
      requires Layout'() && MarksOk(st) && SweepStage(SweptUpTo(st.blocks, st.marks, 0))
      modifies this`emptyHead, this`emptyList, this`segList, slider, objSize, next, segreg
      ensures SweepStage(SweptUpTo(st.blocks, st.marks, count))
    {
      var i := 0;
      while i < count
        invariant 0 <= i <= count && SweepStage(SweptUpTo(st.blocks, st.marks, i))
      {
        SweepBlock(i);
        i := i + 1;
      }
    }

    method ResetLists()
      requires Layout()
      modifies this`emptyHead, this`emptyList, this`segList, segreg
      ensures SweepStage(SweptUpTo(st.blocks, st.marks, 0))
    {
      emptyHead := NULL;
      var i := 0;
      while i < SIZES
        invariant 0 <= i <= SIZES && (forall s :: 0 <= s < i ==> segreg[s] == NULL) && emptyHead == NULL
      {
        segreg[i] := NULL;
        i := i + 1;
      }
      emptyList, segList := [], seq(SIZES, _ => []);
    }

    /** One round of the sweep loop. */
    method SweepBlock(i: nat)
      requires Layout'() && MarksOk(st) && i < count && SweepStage(SweptUpTo(st.blocks, st.marks, i))
      modifies this`emptyHead, this`emptyList, this`segList, slider, objSize, next, segreg
      ensures SweepStage(SweptUpTo(st.blocks, st.marks, i + 1))
    {
      ghost var cur := SweptUpTo(st.blocks, st.marks, i);
      ghost var k := Swept(st.blocks[i], i, st.marks);
      SweptStep(st.blocks, st.marks, i);
      HeadersPut(start, slider[..], objSize[..], cur, i, k);
      var empty := bits.IsEmpty(i);
      MarkedBlock(st, i);
      slider[i] := start + BLOCK_SIZE * i + BLOCK_HEADER_SIZE;
      if empty {
        SegAside(next[..], segreg[..], segList, cur, i, emptyHead, k);
        PushList(next[..], emptyHead, emptyList, cur, EMPTY, i, k);
        objSize[i] := 0;
        next[i] := emptyHead;
        emptyHead, emptyList := i, [i] + emptyList;
      } else {
        var s := objSize[i];
        EmptyAside(next[..], emptyHead, emptyList, cur, i, segreg[s], k);
        PushSeg(next[..], segreg[..], segList, cur, i, k);
        assert objSize[..][i := k.size] == objSize[..];
        next[i] := segreg[s];
        segreg[s] := i;
        segList := segList[s := [i] + segList[s]];
      }
    }

    ghost predicate Layout'()
      reads this, bits, bits.bytes
    {
      Shape() && bits.Valid() && bits.marks == st.marks
    }
  }

  /** The blocks of the cache are let go. */
  ghost function Uncached(s: Small): Small {
    s.(blocks := seq(|s.blocks|, b requires 0 <= b < |s.blocks| =>
      if s.blocks[b].home.Cached? then s.blocks[b].(home := Retired) else s.blocks[b]))
  }

  lemma UncachedRep(i: Image, s: Small, cache: seq<int>)
    requires Shows(i, s.blocks) && |cache| == SIZES && NoneCached(cache)
    ensures Shows(i.(cache := cache), Uncached(s).blocks)
  {
    var blocks := Uncached(s).blocks;
    forall b: nat, list: int | b < |blocks| ensures Belongs(blocks[b], list) == Belongs(s.blocks[b], list) {}
    forall j: nat | j < SIZES ensures IsList(i.next, i.segreg[j], i.segList[j]) && Lists(i.segList[j], blocks, j) {
      assert Lists(i.segList[j], s.blocks, j);
    }
  }

  /** A marked block has a size a list exists for; the word-wise test and the set of marks agree. */
  lemma MarkedBlock(s: Small, b: nat)
    requires MarksOk(s) && b < |s.blocks|
    ensures HasMark(s.marks, b) ==> SizeOk(s.blocks[b].size)
    ensures NoMarks(s.marks, b) <==> !HasMark(s.marks, b)
  {
    forall i: nat | Slot(b, i) in s.marks ensures SizeOk(s.blocks[b].size) && i < SLOT_BITS {
      assert Slot(b, i).block == b;
      SlotsPositive(s.blocks[b].size);
    }
  }

  lemma NullState(s: Small, size: nat, cache: seq<int>, next: seq<int>, head: int)
    requires Inv(s) && SizeOk(size) && PcOf(s, ME) == NeedEmpty(size) && CacheOk(cache, s.blocks)
    requires EmptyOk(next, head, [], s.blocks)
    ensures Fails(s, ME) && Exhausted(s, size) && Exhausted(Fill(s), size)
    ensures MarksAfterNull(Fill(s))
  {
    forall b: nat | b < |s.blocks| ensures s.blocks[b].home != InEmpty { assert b !in []; }
    forall b, i: nat | 0 <= b < |s.blocks| && s.blocks[b].size == size && i < Slots(size) ensures Slot(b, i) in s.used {
      SingleMutatorNull(s, ME, b, i);
    }
    forall x | x in Fill(s).marks ensures x.block < |s.blocks| && (s.blocks[x.block].home == Cached(ME) || LeftOver(s, x)) {
      FillLeaves(s, x);
      assert HomeOk(s, x.block);
    }
  }
}
