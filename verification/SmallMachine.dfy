/**
 The small-object allocator as interleaved steps of any number of threads
 (allocate_small_object and its list operations in small-allocator.c).  A step
 is one list pop, one iteration of the scan loop, or the final bookkeeping on a
 thread's own block.
 */
module SmallMachine {
  import opened Config

  /** Object slot `index` of block `block`. */
  datatype Slot = Slot(block: nat, index: nat)

  /** Where a block is: a list, a thread's cache, a thread's local variable, or nowhere until the next sweep. */
  datatype Home = InEmpty | InSegreg | Cached(tid: nat) | Held(tid: nat) | Retired

  /**
   `pos` is the slider stored in the header, counted in slots.  `front` is an
   auxiliary copy of the local slider of the thread that is scanning the block.
   */
  datatype BlockState = BlockState(home: Home, size: nat, pos: nat, front: nat)

  /** Where a thread is inside `allocate_small_object`; `at` is its local slider. */
  datatype Pc =
    | Idle
    | NeedBlock(size: nat)
    | NeedEmpty(size: nat)
    | Scanning(size: nat, block: nat, at: nat, fromCache: bool)
    | Found(size: nat, block: nat, fromCache: bool)

  /** `used` holds the slots that survived the last sweep and those handed out since. */
  datatype Small = Small(blocks: seq<BlockState>, marks: set<Slot>, used: set<Slot>, pcs: map<nat, Pc>)

  // ----- Geometry -----

  predicate SizeOk(size: nat) { 1 <= size <= MAX_OBJECT_SIZE }

  /** Whole slots in a block of objects of `size` bytes. */
  function Slots(size: nat): nat
    requires SizeOk(size)
  {
    Quotient(OBJECT_AREA, Align(size))
  }

  /** Slots that begin in a block: the whole ones and the partial one the bytes left over make up. */
  function Starts(size: nat): nat
    requires SizeOk(size)
  {
    if Align(size) * Slots(size) < OBJECT_AREA then Slots(size) + 1 else Slots(size)
  }

  // ----- The invariant -----

  function PcOf(s: Small, t: nat): Pc { if t in s.pcs then s.pcs[t] else Idle }

  /** No slot of the block is used or marked. */
  ghost predicate Untouched(b: nat, marks: set<Slot>, used: set<Slot>) {
    forall i: nat :: Slot(b, i) !in used && Slot(b, i) !in marks
  }

  /**
   Slots before `front` are used and unmarked; from `front` on a slot is used
   exactly when it is marked.  The partial slot may be marked, too.
   */
  ghost predicate Frontier(b: nat, starts: nat, front: nat, marks: set<Slot>, used: set<Slot>) {
    forall i: nat ::
      && (Slot(b, i) in marks ==> front <= i < starts && Slot(b, i) in used)
      && (i < front ==> Slot(b, i) in used)
      && (i >= front && Slot(b, i) in used ==> Slot(b, i) in marks)
  }

  ghost predicate BlockOk(k: BlockState, b: nat, marks: set<Slot>, used: set<Slot>) {
    if k.home.InEmpty? then Untouched(b, marks, used)
    else
      && SizeOk(k.size) && k.pos <= k.front <= Slots(k.size)
      && Frontier(b, Starts(k.size), k.front, marks, used)
      && (k.home.Retired? ==> k.front == Slots(k.size))
      && (k.home.InSegreg? ==> k.front == k.pos)
  }

  /** A block in a thread's hands agrees with what that thread is doing. */
  ghost predicate HomeOk(s: Small, b: nat)
    requires b < |s.blocks|
  {
    var k := s.blocks[b];
    match k.home
    case Held(t) =>
      (match PcOf(s, t)
       case Scanning(size, c, at, fromCache) => c == b && !fromCache
       case Found(size, c, fromCache) => c == b && !fromCache
       case _ => false)
    case Cached(t) =>
      (match PcOf(s, t)
       case Idle => k.front == k.pos
       case NeedBlock(size) => size != k.size && k.front == k.pos
       case NeedEmpty(size) => size != k.size && k.front == k.pos
       case Scanning(size, c, at, fromCache) => c == b || (size != k.size && k.front == k.pos)
       case Found(size, c, fromCache) => c == b || (size != k.size && k.front == k.pos))
    case _ => true
  }

  ghost predicate PcOk(s: Small, t: nat) {
    match PcOf(s, t)
    case Idle => true
    case NeedBlock(size) => SizeOk(size)
    case NeedEmpty(size) => SizeOk(size)
    case Scanning(size, b, at, fromCache) =>
      && SizeOk(size) && b < |s.blocks| && s.blocks[b].size == size && s.blocks[b].front == at
      && s.blocks[b].home == (if fromCache then Cached(t) else Held(t))
    case Found(size, b, fromCache) =>
      && SizeOk(size) && b < |s.blocks| && s.blocks[b].size == size
      && s.blocks[b].home == (if fromCache then Cached(t) else Held(t))
      && s.blocks[b].front == s.blocks[b].pos < Slots(size) && Slot(b, s.blocks[b].pos) !in s.marks
  }

  /** A cache slot holds one block. */
  ghost predicate CachesOk(s: Small) {
    forall b, c :: 0 <= b < c < |s.blocks| && s.blocks[b].home.Cached? && s.blocks[b].home == s.blocks[c].home
      ==> s.blocks[b].size != s.blocks[c].size
  }

  /** A thread that has gone on to the empty list has found its own list exhausted. */
  ghost predicate ListsOk(s: Small) {
    forall b, t: nat :: 0 <= b < |s.blocks| && s.blocks[b].home == InSegreg && PcOf(s, t).NeedEmpty? ==>
      s.blocks[b].size != PcOf(s, t).size
  }

  ghost predicate Inv(s: Small) {
    && (forall x :: x in s.used || x in s.marks ==> x.block < |s.blocks|)
    && (forall b :: 0 <= b < |s.blocks| ==> BlockOk(s.blocks[b], b, s.marks, s.used))
    && (forall b :: 0 <= b < |s.blocks| ==> HomeOk(s, b))
    && (forall t: nat :: PcOk(s, t))
    && CachesOk(s)
    && ListsOk(s)
  }

  // ----- Steps -----

  datatype Choice = NoBlock | SomeBlock(b: nat)

  datatype Step =
    | Start(t: nat, size: nat, cached: Choice)
    | TakeSegreg(t: nat, b: nat)
    | NoSegreg(t: nat)
    | TakeEmpty(t: nat, b: nat)
    | Pass(t: nat)
    | Hit(t: nat)
    | Miss(t: nat)
    | Finish(t: nat)

  ghost predicate NothingCached(s: Small, t: nat, size: nat) {
    forall b :: 0 <= b < |s.blocks| && s.blocks[b].home == Cached(t) ==> s.blocks[b].size != size
  }

  ghost predicate NothingListed(s: Small, size: nat) {
    forall b :: 0 <= b < |s.blocks| && s.blocks[b].home == InSegreg ==> s.blocks[b].size != size
  }

  /** The guard of each step: the branch the code takes. */
  ghost predicate Enabled(s: Small, step: Step) {
    match step
    case Start(t, size, cached) =>
      && PcOf(s, t).Idle? && SizeOk(size)
      && (match cached
          case NoBlock => NothingCached(s, t, size)
          case SomeBlock(b) => b < |s.blocks| && s.blocks[b].home == Cached(t) && s.blocks[b].size == size)
    case TakeSegreg(t, b) =>
      PcOf(s, t).NeedBlock? && b < |s.blocks| && s.blocks[b].home == InSegreg && s.blocks[b].size == PcOf(s, t).size
    case NoSegreg(t) => PcOf(s, t).NeedBlock? && NothingListed(s, PcOf(s, t).size)
    case TakeEmpty(t, b) => PcOf(s, t).NeedEmpty? && b < |s.blocks| && s.blocks[b].home == InEmpty
    case Pass(t) =>
      var pc := PcOf(s, t);
      pc.Scanning? && SizeOk(pc.size) && pc.block < |s.blocks|
        && pc.at < Slots(pc.size) && Slot(pc.block, pc.at) in s.marks
    case Hit(t) =>
      var pc := PcOf(s, t);
      pc.Scanning? && SizeOk(pc.size) && pc.block < |s.blocks|
        && pc.at < Slots(pc.size) && Slot(pc.block, pc.at) !in s.marks
    case Miss(t) =>
      var pc := PcOf(s, t);
      pc.Scanning? && SizeOk(pc.size) && pc.block < |s.blocks| && pc.at >= Slots(pc.size)
    case Finish(t) => PcOf(s, t).Found? && PcOf(s, t).block < |s.blocks|
  }

  /** One step: block `b` and thread `t` change, and some slots. */
  function Put(s: Small, t: nat, pc: Pc, b: nat, k: BlockState): Small
    requires b < |s.blocks|
  {
    s.(blocks := s.blocks[b := k], pcs := s.pcs[t := pc])
  }

  function Apply(s: Small, step: Step): Small
    requires Enabled(s, step)
  {
    match step
    case Start(t, size, cached) =>
      s.(pcs := s.pcs[t := if cached.SomeBlock? then Scanning(size, cached.b, s.blocks[cached.b].pos, true)
                           else NeedBlock(size)])
    case TakeSegreg(t, b) =>
      Put(s, t, Scanning(PcOf(s, t).size, b, s.blocks[b].pos, false), b, s.blocks[b].(home := Held(t)))
    case NoSegreg(t) => s.(pcs := s.pcs[t := NeedEmpty(PcOf(s, t).size)])
    case TakeEmpty(t, b) =>
      var size := PcOf(s, t).size;
      Put(s, t, Found(size, b, false), b, BlockState(Held(t), size, 0, 0)).(marks := set x | x in s.marks && x.block != b)
    case Pass(t) =>
      var pc := PcOf(s, t);
      Put(s, t, pc.(at := pc.at + 1), pc.block, s.blocks[pc.block].(front := pc.at + 1))
        .(marks := s.marks - {Slot(pc.block, pc.at)})
    case Hit(t) =>
      var pc := PcOf(s, t);
      Put(s, t, Found(pc.size, pc.block, pc.fromCache), pc.block, s.blocks[pc.block].(pos := pc.at))
    case Miss(t) =>
      var pc := PcOf(s, t);
      Put(s, t, NeedBlock(pc.size), pc.block, s.blocks[pc.block].(home := Retired))
    case Finish(t) =>
      var pc := PcOf(s, t);
      var k := s.blocks[pc.block];
      var next := k.pos + 1;
      var home := if Align(pc.size) * next >= OBJECT_AREA then Retired else Cached(t);
      Put(s, t, Idle, pc.block, BlockState(home, k.size, next, next)).(used := s.used + {Slot(pc.block, k.pos)})
  }

  // ----- Every step keeps the invariant -----

  predicate OwnedBy(h: Home, t: nat) { h == Cached(t) || h == Held(t) }

  /** Only thread `t`, block `b` and the slots of `b` differ. */
  ghost predicate Local(s: Small, s': Small, t: nat, b: int) {
    && |s'.blocks| == |s.blocks|
    && (forall c :: 0 <= c < |s.blocks| && c != b ==> s'.blocks[c] == s.blocks[c])
    && (forall u: nat :: u != t ==> PcOf(s', u) == PcOf(s, u))
    && (forall x: Slot :: x.block != b ==> (x in s'.marks <==> x in s.marks) && (x in s'.used <==> x in s.used))
  }

  /** The part of the invariant that concerns blocks is local. */
  lemma LocalBlocks(s: Small, s': Small, t: nat, b: int)
    requires Inv(s) && Local(s, s', t, b)
    requires 0 <= b < |s.blocks| ==> BlockOk(s'.blocks[b], b, s'.marks, s'.used)
    ensures forall c :: 0 <= c < |s'.blocks| ==> BlockOk(s'.blocks[c], c, s'.marks, s'.used)
  {
    forall c | 0 <= c < |s'.blocks| ensures BlockOk(s'.blocks[c], c, s'.marks, s'.used) {
      if c != b { BlockOkSame(s.blocks[c], c, s.marks, s.used, s'.marks, s'.used); }
    }
  }

  lemma BlockOkSame(k: BlockState, c: nat, marks: set<Slot>, used: set<Slot>, marks': set<Slot>, used': set<Slot>)
    requires BlockOk(k, c, marks, used)
    requires forall x: Slot :: x.block == c ==> (x in marks' <==> x in marks) && (x in used' <==> x in used)
    ensures BlockOk(k, c, marks', used')
  {
    forall i: nat ensures (Slot(c, i) in marks' <==> Slot(c, i) in marks) && (Slot(c, i) in used' <==> Slot(c, i) in used) {
      assert Slot(c, i).block == c;
    }
  }

  /** Other threads keep their blocks and their places. */
  lemma LocalThreads(s: Small, s': Small, t: nat, b: int)
    requires Inv(s) && Local(s, s', t, b) && PcOk(s', t)
    requires 0 <= b < |s.blocks| ==> forall u: nat :: u != t ==> !OwnedBy(s.blocks[b].home, u)
    ensures forall u: nat :: PcOk(s', u)
  {
    forall u: nat ensures PcOk(s', u) {
      if u != t {
        assert PcOk(s, u) && PcOf(s', u) == PcOf(s, u);
        var pc := PcOf(s, u);
        if pc.Scanning? || pc.Found? {
          assert OwnedBy(s.blocks[pc.block].home, u);
          assert pc.block != b && s'.blocks[pc.block] == s.blocks[pc.block];
          var x := Slot(pc.block, s.blocks[pc.block].pos);
          assert x in s'.marks <==> x in s.marks;
        }
      }
    }
  }

  lemma LocalHomes(s: Small, s': Small, t: nat, b: int)
    requires Inv(s) && Local(s, s', t, b)
    requires 0 <= b < |s.blocks| ==> HomeOk(s', b)
    requires forall c :: 0 <= c < |s.blocks| && c != b && OwnedBy(s.blocks[c].home, t) ==> HomeOk(s', c)
    ensures forall c :: 0 <= c < |s'.blocks| ==> HomeOk(s', c)
  {
    forall c | 0 <= c < |s'.blocks| ensures HomeOk(s', c) {
      if c != b && !OwnedBy(s.blocks[c].home, t) { assert HomeOk(s, c); }
    }
  }

  ghost predicate CachesNoOther(s: Small, t: nat, b: int, size: nat) {
    forall c :: 0 <= c < |s.blocks| && c != b && s.blocks[c].home == Cached(t) ==> s.blocks[c].size != size
  }

  /** A step is sound when its own thread and block come out right. */
  lemma LocalStep(s: Small, s': Small, t: nat, b: int)
    requires Inv(s) && Local(s, s', t, b) && PcOk(s', t)
    requires forall x :: x in s'.used || x in s'.marks ==> x.block < |s.blocks|
    requires 0 <= b < |s.blocks| ==>
      && BlockOk(s'.blocks[b], b, s'.marks, s'.used) && HomeOk(s', b)
      && (forall u: nat :: u != t ==> !OwnedBy(s.blocks[b].home, u))
      && !s'.blocks[b].home.InSegreg?
      && (s'.blocks[b].home.Cached? ==> s'.blocks[b].home == Cached(t) && CachesNoOther(s, t, b, s'.blocks[b].size))
    requires forall c :: 0 <= c < |s.blocks| && c != b && OwnedBy(s.blocks[c].home, t) ==> HomeOk(s', c)
    requires PcOf(s', t).NeedEmpty? ==> NothingListed(s', PcOf(s', t).size)
    ensures Inv(s')
  {
    LocalBlocks(s, s', t, b);
    LocalThreads(s, s', t, b);
    LocalHomes(s, s', t, b);
    forall c, d | 0 <= c < d < |s'.blocks| && s'.blocks[c].home.Cached? && s'.blocks[c].home == s'.blocks[d].home
      ensures s'.blocks[c].size != s'.blocks[d].size
    {
    }
    forall c, u: nat | 0 <= c < |s'.blocks| && s'.blocks[c].home == InSegreg && PcOf(s', u).NeedEmpty?
      ensures s'.blocks[c].size != PcOf(s', u).size
    {
    }
  }

  lemma StartKeeps(s: Small, t: nat, size: nat, cached: Choice)
    requires Inv(s) && Enabled(s, Start(t, size, cached))
    ensures Inv(Apply(s, Start(t, size, cached)))
  {
    var s' := Apply(s, Start(t, size, cached));
    forall c | 0 <= c < |s.blocks| && OwnedBy(s.blocks[c].home, t) ensures HomeOk(s', c) {
      assert HomeOk(s, c);
      if cached.SomeBlock? { assert HomeOk(s, cached.b); }
    }
    if cached.SomeBlock? { assert HomeOk(s, cached.b) && BlockOk(s.blocks[cached.b], cached.b, s.marks, s.used); }
    LocalStep(s, s', t, -1);
  }

  lemma TakeSegregKeeps(s: Small, t: nat, b: nat)
    requires Inv(s) && Enabled(s, TakeSegreg(t, b))
    ensures Inv(Apply(s, TakeSegreg(t, b)))
  {
    var s' := Apply(s, TakeSegreg(t, b));
    assert PcOk(s, t) && BlockOk(s.blocks[b], b, s.marks, s.used);
    forall c | 0 <= c < |s.blocks| && c != b && OwnedBy(s.blocks[c].home, t) ensures HomeOk(s', c) { assert HomeOk(s, c); }
    LocalStep(s, s', t, b);
  }

  lemma NoSegregKeeps(s: Small, t: nat)
    requires Inv(s) && Enabled(s, NoSegreg(t))
    ensures Inv(Apply(s, NoSegreg(t)))
  {
    var s' := Apply(s, NoSegreg(t));
    assert PcOk(s, t);
    forall c | 0 <= c < |s.blocks| && OwnedBy(s.blocks[c].home, t) ensures HomeOk(s', c) { assert HomeOk(s, c); }
    LocalStep(s, s', t, -1);
  }

  lemma TakeEmptyKeeps(s: Small, t: nat, b: nat)
    requires Inv(s) && Enabled(s, TakeEmpty(t, b))
    ensures Inv(Apply(s, TakeEmpty(t, b)))
  {
    var s' := Apply(s, TakeEmpty(t, b));
    assert PcOk(s, t) && BlockOk(s.blocks[b], b, s.marks, s.used);
    SlotsPositive(PcOf(s, t).size);
    forall c | 0 <= c < |s.blocks| && c != b && OwnedBy(s.blocks[c].home, t) ensures HomeOk(s', c) { assert HomeOk(s, c); }
    LocalStep(s, s', t, b);
  }

  lemma PassKeeps(s: Small, t: nat)
    requires Inv(s) && Enabled(s, Pass(t))
    ensures Inv(Apply(s, Pass(t)))
  {
    var s' := Apply(s, Pass(t));
    var b := PcOf(s, t).block;
    assert PcOk(s, t) && HomeOk(s, b) && BlockOk(s.blocks[b], b, s.marks, s.used);
    forall c | 0 <= c < |s.blocks| && c != b && OwnedBy(s.blocks[c].home, t) 
      ensures HomeOk(s', c) && (s.blocks[c].home == Cached(t) ==> s.blocks[c].size != s.blocks[b].size)
    {
      assert HomeOk(s, c);
    }
    LocalStep(s, s', t, b);
  }

  lemma HitKeeps(s: Small, t: nat)
    requires Inv(s) && Enabled(s, Hit(t))
    ensures Inv(Apply(s, Hit(t)))
  {
    var s' := Apply(s, Hit(t));
    var b := PcOf(s, t).block;
    assert PcOk(s, t) && HomeOk(s, b) && BlockOk(s.blocks[b], b, s.marks, s.used);
    forall c | 0 <= c < |s.blocks| && c != b && OwnedBy(s.blocks[c].home, t) 
      ensures HomeOk(s', c) && (s.blocks[c].home == Cached(t) ==> s.blocks[c].size != s.blocks[b].size)
    {
      assert HomeOk(s, c);
    }
    LocalStep(s, s', t, b);
  }

  lemma MissKeeps(s: Small, t: nat)
    requires Inv(s) && Enabled(s, Miss(t))
    ensures Inv(Apply(s, Miss(t)))
  {
    var s' := Apply(s, Miss(t));
    var b := PcOf(s, t).block;
    assert PcOk(s, t) && HomeOk(s, b) && BlockOk(s.blocks[b], b, s.marks, s.used);
    forall c | 0 <= c < |s.blocks| && c != b && OwnedBy(s.blocks[c].home, t) ensures HomeOk(s', c) { assert HomeOk(s, c); }
    LocalStep(s, s', t, b);
  }

  lemma FinishKeeps(s: Small, t: nat)
    requires Inv(s) && Enabled(s, Finish(t))
    ensures Inv(Apply(s, Finish(t)))
  {
    var s' := Apply(s, Finish(t));
    var b := PcOf(s, t).block;
    assert PcOk(s, t) && HomeOk(s, b) && BlockOk(s.blocks[b], b, s.marks, s.used);
    LastSlot(PcOf(s, t).size, s.blocks[b].pos + 1);
    forall c | 0 <= c < |s.blocks| && c != b && OwnedBy(s.blocks[c].home, t) 
      ensures HomeOk(s', c) && (s.blocks[c].home == Cached(t) ==> s.blocks[c].size != s.blocks[b].size)
    {
      assert HomeOk(s, c);
    }
    LocalStep(s, s', t, b);
  }

  lemma SlotsPositive(size: nat)
    requires SizeOk(size)
    ensures 2 <= Slots(size) <= 502 && Slots(size) <= Starts(size) <= Slots(size) + 1
  {
    DivAtLeast(OBJECT_AREA, Align(size), 2);
    DivBelow(OBJECT_AREA, Align(size), 503);
  }

  /** The slider passes the end of the block only at the last whole slot. */
  lemma LastSlot(size: nat, n: nat)
    requires SizeOk(size) && n <= Slots(size)
    ensures Align(size) * n >= OBJECT_AREA ==> n == Slots(size)
  {
    var (a, q) := (Align(size), Slots(size));
    DivBounds(OBJECT_AREA, a);
    if n < q { MulLe(a, n + 1, q); MulNext(a, n); }
  }
}
