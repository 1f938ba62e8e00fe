/**
 The sweep of the occupied tree: what the post-order walk leaves in the
 occupied tree and what it gives to the free treap, with `remove_bst` as written
 and with the repair.
 */
module SweepLaws {
  import opened Sequences
  import opened BlockTrees
  import opened TreapLaws
  import opened SearchLaws

  /** Byte `x` lies in a marked block. */
  predicate LiveAt(t: Tree, x: nat) {
    t.Fork? && ((t.block.isMarked && t.block.Within(x)) || LiveAt(t.left, x) || LiveAt(t.right, x))
  }

  /** Byte `x` lies in an unmarked block. */
  predicate DeadAt(t: Tree, x: nat) {
    t.Fork? && ((!t.block.isMarked && t.block.Within(x)) || DeadAt(t.left, x) || DeadAt(t.right, x))
  }

  predicate HasLive(t: Tree) { t.Fork? && (t.block.isMarked || HasLive(t.left) || HasLive(t.right)) }

  /** The marked blocks, each with its mark cleared. */
  function Survivors(t: Tree): set<Block> {
    match t
    case Empty => {}
    case Fork(_, b, l, r) =>
      (if b.isMarked then {b.(isMarked := false)} else {}) + Survivors(l) + Survivors(r)
  }

  /**
   Some unmarked block has marked blocks on both sides inside its own subtree.
   This is the guard of the two-children branch, read off before the sweep.
   */
  predicate Straddled(t: Tree) {
    t.Fork? &&
      (Straddled(t.left) || Straddled(t.right)
       || (!t.block.isMarked && HasLive(t.left) && HasLive(t.right)))
  }

  ghost predicate Disjoint(t: Tree, u: Tree) {
    forall x: nat :: Covers(t, x) ==> !Covers(u, x)
  }

  lemma {:induction false} CoversSplitsByMark(t: Tree, x: nat)
    ensures Covers(t, x) <==> LiveAt(t, x) || DeadAt(t, x)
  {
    if t.Fork? {
      CoversSplitsByMark(t.left, x);
      CoversSplitsByMark(t.right, x);
    }
  }

  lemma CoversSplitsByMarkAll(t: Tree)
    ensures forall x: nat :: Covers(t, x) <==> LiveAt(t, x) || DeadAt(t, x)
  {
    forall x: nat ensures Covers(t, x) <==> LiveAt(t, x) || DeadAt(t, x) { CoversSplitsByMark(t, x); }
  }

  // ----- The occupied tree: the same with and without the repair -----

  /** The tree left by the walk is ordered and holds exactly the survivors. */
  lemma {:induction false} CleanupKeepsSurvivors(t: Tree, f: Tree, p: seq<TreeNode>, repaired: bool, lo: int, hi: int)
    requires Spaced(t, lo, hi, 0)
    ensures Spaced(Cleanup(t, f, p, repaired).occupied, lo, hi, 0)
    ensures Blocks(Cleanup(t, f, p, repaired).occupied) == Survivors(t)
  {
    if t.Fork? {
      var s1 := Cleanup(t.left, f, p, repaired);
      var s2 := Cleanup(t.right, s1.free, s1.pool, repaired);
      CleanupKeepsSurvivors(t.left, f, p, repaired, lo, t.block.addr);
      CleanupKeepsSurvivors(t.right, s1.free, s1.pool, repaired, t.block.End(), hi);
      if !t.block.isMarked {
        var m := Fork(t.node, t.block, s1.occupied, s2.occupied);
        RemoveRootSpaced(m, lo, hi, repaired);
        RemoveRootBlocks(m, lo, hi, repaired);
      }
    }
  }

  lemma {:induction false} SurvivorsAligned(t: Tree, b: Block)
    requires AllAligned(t) && b in Survivors(t)
    ensures Aligned(b) && !b.isMarked && b.(isMarked := true) in Blocks(t)
  {
    if t.block.isMarked && b == t.block.(isMarked := false) {
      assert b.(isMarked := true) == t.block;
    } else if b in Survivors(t.left) {
      SurvivorsAligned(t.left, b);
    } else {
      SurvivorsAligned(t.right, b);
    }
  }

  lemma {:induction false} AllAlignedFromBlocks(t: Tree)
    requires forall b :: b in Blocks(t) ==> Aligned(b)
    ensures AllAligned(t)
  {
    if t.Fork? {
      AllAlignedFromBlocks(t.left);
      AllAlignedFromBlocks(t.right);
    }
  }

  lemma {:induction false} CleanupLeavesLiveBytes(t: Tree, f: Tree, p: seq<TreeNode>, repaired: bool, x: nat)
    ensures Covers(Cleanup(t, f, p, repaired).occupied, x) <==> LiveAt(t, x)
  {
    if t.Fork? {
      var s1 := Cleanup(t.left, f, p, repaired);
      var s2 := Cleanup(t.right, s1.free, s1.pool, repaired);
      CleanupLeavesLiveBytes(t.left, f, p, repaired, x);
      CleanupLeavesLiveBytes(t.right, s1.free, s1.pool, repaired, x);
      if !t.block.isMarked {
        RemoveRootCovers(Fork(t.node, t.block, s1.occupied, s2.occupied), repaired, x);
      }
    }
  }

  lemma {:induction false} CleanupEmptyIffNoLive(t: Tree, f: Tree, p: seq<TreeNode>, repaired: bool)
    ensures Cleanup(t, f, p, repaired).occupied.Fork? <==> HasLive(t)
  {
    if t.Fork? {
      var s1 := Cleanup(t.left, f, p, repaired);
      CleanupEmptyIffNoLive(t.left, f, p, repaired);
      CleanupEmptyIffNoLive(t.right, s1.free, s1.pool, repaired);
    }
  }

  // ----- The free treap, with the repair -----

  lemma StillApart(t: Tree, f: Tree, f': Tree, lo: int, hi: int)
    requires t.Fork? && Spaced(t, lo, hi, 0) && Disjoint(t, f)
    requires forall x: nat :: Covers(f', x) ==> Covers(f, x) || Covers(t.left, x)
    ensures Disjoint(t.right, f')
    ensures forall x: nat :: t.block.Within(x) ==> !Covers(f', x)
  {
    forall x: nat | Covers(t.right, x) || t.block.Within(x) ensures !Covers(f', x) {
      assert Covers(t, x);
      if Covers(t.right, x) { SpacedCovers(t.right, t.block.End(), hi, 0, x); }
      if Covers(t.left, x) { SpacedCovers(t.left, lo, t.block.addr, 0, x); }
    }
  }

  lemma StillApartRoot(t: Tree, f1: Tree, f2: Tree, lo: int, hi: int)
    requires t.Fork? && Spaced(t, lo, hi, 0)
    requires forall x: nat :: t.block.Within(x) ==> !Covers(f1, x)
    requires forall x: nat :: Covers(f2, x) ==> Covers(f1, x) || Covers(t.right, x)
    ensures forall x: nat :: t.block.Within(x) ==> !Covers(f2, x)
  {
    forall x: nat | t.block.Within(x) ensures !Covers(f2, x) {
      if Covers(t.right, x) { SpacedCovers(t.right, t.block.End(), hi, 0, x); }
    }
  }

  /**
   With the repair the treap stays in order, stays coalesced and gains exactly
   the bytes of the unmarked blocks.
   */
  lemma {:induction false} CleanupFreesDead(t: Tree, f: Tree, p: seq<TreeNode>, lo: int, hi: int, a: int, z: int)
    requires Spaced(t, a, z, 0) && lo <= a && z <= hi && AllAligned(t)
    requires FreeTreap(f, lo, hi) && Disjoint(t, f)
    ensures FreeTreap(Cleanup(t, f, p, true).free, lo, hi)
    ensures forall x: nat :: Covers(Cleanup(t, f, p, true).free, x) <==> Covers(f, x) || DeadAt(t, x)
  {
    if t.Fork? {
      var b := t.block;
      var s1 := Cleanup(t.left, f, p, true);
      var s2 := Cleanup(t.right, s1.free, s1.pool, true);
      DisjointParts(t, f);
      CleanupFreesDead(t.left, f, p, lo, hi, a, b.addr);
      CoversSplitsByMarkAll(t.left);
      StillApart(t, f, s1.free, a, z);
      CleanupFreesDead(t.right, s1.free, s1.pool, lo, hi, b.End(), z);
      if !b.isMarked {
        CoversSplitsByMarkAll(t.right);
        StillApartRoot(t, s1.free, s2.free, a, z);
        ApartIsClear(s2.free, lo, hi, 1, b);
        InsertDead(s2.free, lo, hi, RemoveBst(Fork(t.node, b, s1.occupied, s2.occupied), b.addr, true).out.value.node, b);
      }
    }
  }

  lemma DisjointParts(t: Tree, f: Tree)
    requires t.Fork? && Disjoint(t, f)
    ensures Disjoint(t.left, f)
  {
    forall x: nat | Covers(t.left, x) ensures !Covers(f, x) { assert Covers(t, x); }
  }

  lemma InsertDead(f: Tree, lo: int, hi: int, n: TreeNode, b: Block)
    requires FreeTreap(f, lo, hi) && Clear(f, b)
    requires Aligned(b) && !b.isMarked && b.size > 0 && lo <= b.addr && b.End() <= hi
    ensures FreeTreap(InsertTreap(f, n, b).tree, lo, hi)
    ensures forall x: nat :: Covers(InsertTreap(f, n, b).tree, x) <==> Covers(f, x) || b.Within(x)
  {
    InsertTreapKeepsOrder(f, lo, hi, n, b);
    forall x: nat ensures Covers(InsertTreap(f, n, b).tree, x) <==> Covers(f, x) || b.Within(x) {
      InsertTreapCovers(f, lo, hi, n, b, x);
    }
  }

  // ----- The code as written -----

  /** Without a straddled block the two-children branch is never taken. */
  lemma {:induction false} AsWrittenAgrees(t: Tree, f: Tree, p: seq<TreeNode>)
    requires !Straddled(t)
    ensures Cleanup(t, f, p, false) == Cleanup(t, f, p, true)
  {
    if t.Fork? {
      var s1 := Cleanup(t.left, f, p, true);
      AsWrittenAgrees(t.left, f, p);
      AsWrittenAgrees(t.right, s1.free, s1.pool);
      CleanupEmptyIffNoLive(t.left, f, p, true);
      CleanupEmptyIffNoLive(t.right, s1.free, s1.pool, true);
    }
  }

  /** Byte `x` lies in a straddled block. */
  predicate LostAt(t: Tree, x: nat) {
    t.Fork? &&
      (LostAt(t.left, x) || LostAt(t.right, x)
       || (!t.block.isMarked && HasLive(t.left) && HasLive(t.right) && t.block.Within(x)))
  }

  /** The marked block with the least address, its mark cleared. */
  function FirstLive(t: Tree): Block
    requires HasLive(t)
  {
    if HasLive(t.left) then FirstLive(t.left)
    else if t.block.isMarked then t.block.(isMarked := false)
    else FirstLive(t.right)
  }

  /** Byte `x` lies in the first live block to the right of a straddled block. */
  predicate FreedAt(t: Tree, x: nat) {
    t.Fork? &&
      (FreedAt(t.left, x) || FreedAt(t.right, x)
       || (!t.block.isMarked && HasLive(t.left) && HasLive(t.right) && FirstLive(t.right).Within(x)))
  }

  /** What the sweep as written adds to the free bytes. */
  predicate GainedAt(t: Tree, x: nat) { (DeadAt(t, x) && !LostAt(t, x)) || FreedAt(t, x) }

  lemma {:induction false} LostIsDead(t: Tree, x: nat)
    ensures LostAt(t, x) ==> DeadAt(t, x)
  {
    if t.Fork? {
      LostIsDead(t.left, x);
      LostIsDead(t.right, x);
    }
  }

  lemma {:induction false} FirstLiveIsLive(t: Tree, x: nat)
    requires HasLive(t) && FirstLive(t).Within(x)
    ensures LiveAt(t, x)
  {
    if HasLive(t.left) {
      FirstLiveIsLive(t.left, x);
    } else if !t.block.isMarked {
      FirstLiveIsLive(t.right, x);
    }
  }

  lemma {:induction false} LiveHasLive(t: Tree, x: nat)
    requires LiveAt(t, x)
    ensures HasLive(t)
  {
    if LiveAt(t.left, x) { LiveHasLive(t.left, x); } else if LiveAt(t.right, x) { LiveHasLive(t.right, x); }
  }

  /** What is freed from under a straddled block is live, and never the first live block of the tree. */
  lemma {:induction false} FreedIsLive(t: Tree, lo: int, hi: int, x: nat)
    requires Spaced(t, lo, hi, 0) && FreedAt(t, x)
    ensures LiveAt(t, x) && HasLive(t) && !FirstLive(t).Within(x)
  {
    var b := t.block;
    OneSideOnly(t, lo, hi, x);
    if FreedAt(t.left, x) {
      FreedIsLive(t.left, lo, b.addr, x);
    } else if FreedAt(t.right, x) {
      FreedIsLive(t.right, b.End(), hi, x);
    } else {
      FirstLiveIsLive(t.right, x);
    }
    LiveHasLive(t, x);
    if HasLive(t.left) && FirstLive(t.left).Within(x) { FirstLiveIsLive(t.left, x); }
  }

  lemma {:induction false} LiveOrDead(t: Tree, lo: int, hi: int, x: nat)
    requires Spaced(t, lo, hi, 0)
    ensures !(LiveAt(t, x) && DeadAt(t, x))
  {
    if t.Fork? {
      LiveOrDead(t.left, lo, t.block.addr, x);
      LiveOrDead(t.right, t.block.End(), hi, x);
      OneSideOnly(t, lo, hi, x);
    }
  }

  /** The leftmost block the walk leaves is the first live one. */
  lemma {:induction false} LeftmostIsFirstLive(t: Tree, f: Tree, p: seq<TreeNode>, repaired: bool)
    requires HasLive(t)
    ensures var s := Cleanup(t, f, p, repaired); s.occupied.Fork? && Leftmost(s.occupied).block == FirstLive(t)
  {
    var s1 := Cleanup(t.left, f, p, repaired);
    CleanupEmptyIffNoLive(t.left, f, p, repaired);
    CleanupEmptyIffNoLive(t.right, s1.free, s1.pool, repaired);
    if HasLive(t.left) { LeftmostIsFirstLive(t.left, f, p, repaired); }
    if HasLive(t.right) { LeftmostIsFirstLive(t.right, s1.free, s1.pool, repaired); }
  }

  /** The block the walk hands to the free treap when it comes to an unmarked root. */
  function Given(t: Tree): Block
    requires t.Fork?
  {
    if HasLive(t.left) && HasLive(t.right) then FirstLive(t.right) else t.block
  }

  lemma {:induction false} FirstLiveBounds(t: Tree, lo: int, hi: int)
    requires HasLive(t) && Spaced(t, lo, hi, 0) && AllAligned(t)
    ensures var b := FirstLive(t); Aligned(b) && !b.isMarked && b.size > 0 && lo <= b.addr && b.End() <= hi
  {
    if HasLive(t.left) {
      FirstLiveBounds(t.left, lo, t.block.addr);
    } else if !t.block.isMarked {
      FirstLiveBounds(t.right, t.block.End(), hi);
    }
  }

  lemma GainedSplits(t: Tree, lo: int, hi: int, x: nat)
    requires t.Fork? && Spaced(t, lo, hi, 0)
    ensures GainedAt(t, x) <==>
      GainedAt(t.left, x) || GainedAt(t.right, x) || (!t.block.isMarked && Given(t).Within(x))
    ensures GainedAt(t.left, x) ==> Covers(t.left, x)
    ensures GainedAt(t.right, x) ==> Covers(t.right, x)
  {
    OneSideOnly(t, lo, hi, x);
    if FreedAt(t.left, x) { FreedIsLive(t.left, lo, t.block.addr, x); }
    if FreedAt(t.right, x) { FreedIsLive(t.right, t.block.End(), hi, x); }
  }

  lemma GainedSplitsAll(t: Tree, lo: int, hi: int)
    requires t.Fork? && Spaced(t, lo, hi, 0)
    ensures forall x: nat :: GainedAt(t, x) <==>
      GainedAt(t.left, x) || GainedAt(t.right, x) || (!t.block.isMarked && Given(t).Within(x))
    ensures forall x: nat :: GainedAt(t.left, x) ==> Covers(t.left, x)
    ensures forall x: nat :: GainedAt(t.right, x) ==> Covers(t.right, x)
  {
    forall x: nat
      ensures GainedAt(t, x) <==>
        GainedAt(t.left, x) || GainedAt(t.right, x) || (!t.block.isMarked && Given(t).Within(x))
      ensures GainedAt(t.left, x) ==> Covers(t.left, x)
      ensures GainedAt(t.right, x) ==> Covers(t.right, x)
    {
      GainedSplits(t, lo, hi, x);
    }
  }

  /** The block handed over is not free yet, straddled root or not. */
  lemma GivenIsClear(t: Tree, f1: Tree, f2: Tree, lo: int, hi: int, a: int, z: int)
    requires t.Fork? && Spaced(t, a, z, 0) && AllAligned(t) && !t.block.isMarked && lo <= a && z <= hi
    requires Disjoint(t.right, f1) && (forall x: nat :: t.block.Within(x) ==> !Covers(f1, x))
    requires FreeTreap(f2, lo, hi) && forall x: nat :: Covers(f2, x) <==> Covers(f1, x) || GainedAt(t.right, x)
    ensures var b := Given(t);
      Clear(f2, b) && Aligned(b) && !b.isMarked && b.size > 0 && lo <= b.addr && b.End() <= hi
  {
    var b := Given(t);
    GainedSplitsAll(t, a, z);
    StillApartRoot(t, f1, f2, a, z);
    if HasLive(t.left) && HasLive(t.right) {
      FirstLiveBounds(t.right, t.block.End(), z);
      forall x: nat | b.Within(x) ensures !Covers(f2, x) {
        FirstLiveIsLive(t.right, x);
        CoversSplitsByMark(t.right, x);
        LiveOrDead(t.right, t.block.End(), z, x);
        if FreedAt(t.right, x) { FreedIsLive(t.right, t.block.End(), z, x); }
      }
    }
    ApartIsClear(f2, lo, hi, 1, b);
  }

  /**
   The sweep as written keeps the free treap in order and coalesced, whatever is
   straddled.  It gains the dead bytes that are not in a straddled block, and for
   each straddled block the bytes of a live one in its place.
   */
  lemma {:induction false} CleanupAsWritten(t: Tree, f: Tree, p: seq<TreeNode>, lo: int, hi: int, a: int, z: int)
    requires Spaced(t, a, z, 0) && lo <= a && z <= hi && AllAligned(t)
    requires FreeTreap(f, lo, hi) && Disjoint(t, f)
    ensures FreeTreap(Cleanup(t, f, p, false).free, lo, hi)
    ensures forall x: nat :: Covers(Cleanup(t, f, p, false).free, x) <==>
      Covers(f, x) || (DeadAt(t, x) && !LostAt(t, x)) || FreedAt(t, x)
  {
    if t.Fork? {
      var b := t.block;
      var s1 := Cleanup(t.left, f, p, false);
      var s2 := Cleanup(t.right, s1.free, s1.pool, false);
      GainedSplitsAll(t, a, z);
      DisjointParts(t, f);
      CleanupAsWritten(t.left, f, p, lo, hi, a, b.addr);
      assert forall x: nat :: Covers(s1.free, x) <==> Covers(f, x) || GainedAt(t.left, x);
      StillApart(t, f, s1.free, a, z);
      CleanupAsWritten(t.right, s1.free, s1.pool, lo, hi, b.End(), z);
      assert forall x: nat :: Covers(s2.free, x) <==> Covers(s1.free, x) || GainedAt(t.right, x);
      if !b.isMarked {
        GivenIsClear(t, s1.free, s2.free, lo, hi, a, z);
        GivenIsGiven(t, f, p);
        InsertDead(s2.free, lo, hi, RemoveBst(Fork(t.node, b, s1.occupied, s2.occupied), b.addr, false).out.value.node, Given(t));
      }
      assert forall x: nat :: Covers(Cleanup(t, f, p, false).free, x) <==> Covers(f, x) || GainedAt(t, x);
    }
  }

  lemma GivenIsGiven(t: Tree, f: Tree, p: seq<TreeNode>)
    requires t.Fork? && !t.block.isMarked
    ensures
      var s1 := Cleanup(t.left, f, p, false);
      var s2 := Cleanup(t.right, s1.free, s1.pool, false);
      var out := RemoveBst(Fork(t.node, t.block, s1.occupied, s2.occupied), t.block.addr, false).out;
      out.Some? && out.value.block == Given(t)
  {
    var s1 := Cleanup(t.left, f, p, false);
    CleanupEmptyIffNoLive(t.left, f, p, false);
    CleanupEmptyIffNoLive(t.right, s1.free, s1.pool, false);
    if HasLive(t.right) { LeftmostIsFirstLive(t.right, s1.free, s1.pool, false); }
  }

  lemma OneSideOnly(t: Tree, lo: int, hi: int, x: nat)
    requires t.Fork? && Spaced(t, lo, hi, 0)
    ensures !(Covers(t.left, x) && Covers(t.right, x))
    ensures t.block.Within(x) ==> !Covers(t.left, x) && !Covers(t.right, x)
    ensures LostAt(t.left, x) ==> Covers(t.left, x)
    ensures LostAt(t.right, x) ==> Covers(t.right, x)
    ensures Covers(t.left, x) <==> LiveAt(t.left, x) || DeadAt(t.left, x)
    ensures Covers(t.right, x) <==> LiveAt(t.right, x) || DeadAt(t.right, x)
  {
    if Covers(t.left, x) { SpacedCovers(t.left, lo, t.block.addr, 0, x); }
    if Covers(t.right, x) { SpacedCovers(t.right, t.block.End(), hi, 0, x); }
    CoversSplitsByMark(t.left, x);
    CoversSplitsByMark(t.right, x);
    LostIsDead(t.left, x);
    LostIsDead(t.right, x);
  }

  /** A straddled block loses its first byte, and a live byte is freed. */
  lemma {:induction false} StraddledShows(t: Tree, lo: int, hi: int) returns (lost: nat, freed: nat)
    requires Spaced(t, lo, hi, 0) && AllAligned(t) && Straddled(t)
    ensures LostAt(t, lost) && DeadAt(t, lost) && !LiveAt(t, lost) && !FreedAt(t, lost)
    ensures FreedAt(t, freed)
  {
    if Straddled(t.left) {
      lost, freed := StraddledShows(t.left, lo, t.block.addr);
    } else if Straddled(t.right) {
      lost, freed := StraddledShows(t.right, t.block.End(), hi);
    } else {
      FirstLiveBounds(t.right, t.block.End(), hi);
      lost, freed := t.block.addr, FirstLive(t.right).addr;
    }
    OneSideOnly(t, lo, hi, lost);
    LiveOrDead(t, lo, hi, lost);
    if FreedAt(t, lost) { FreedIsLive(t, lo, hi, lost); }
  }

  lemma {:induction false} FreedIsStraddled(t: Tree, x: nat)
    requires FreedAt(t, x)
    ensures Straddled(t)
  {
    if FreedAt(t.left, x) { FreedIsStraddled(t.left, x); } else if FreedAt(t.right, x) { FreedIsStraddled(t.right, x); }
  }

  /**
   The sweep as written reclaims every byte of every unmarked block exactly when
   no unmarked block is straddled.
   */
  lemma AsWrittenReclaimsIff(t: Tree, f: Tree, p: seq<TreeNode>, lo: int, hi: int)
    requires Spaced(t, lo, hi, 0) && AllAligned(t) && FreeTreap(f, lo, hi) && Disjoint(t, f)
    ensures (forall x: nat :: DeadAt(t, x) ==> Covers(Cleanup(t, f, p, false).free, x)) <==> !Straddled(t)
  {
    CleanupAsWritten(t, f, p, lo, hi, lo, hi);
    if Straddled(t) {
      var x, _ := StraddledShows(t, lo, hi);
      CoversSplitsByMark(t, x);
      assert DeadAt(t, x) && !Covers(Cleanup(t, f, p, false).free, x);
    } else {
      AsWrittenAgrees(t, f, p);
      CleanupFreesDead(t, f, p, lo, hi, lo, hi);
    }
  }

  /**
   The sweep as written frees bytes of a block that stays in the occupied tree
   exactly when some unmarked block is straddled.
   */
  lemma AsWrittenFreesLiveIff(t: Tree, f: Tree, p: seq<TreeNode>, lo: int, hi: int)
    requires Spaced(t, lo, hi, 0) && AllAligned(t) && FreeTreap(f, lo, hi) && Disjoint(t, f)
    ensures
      var s := Cleanup(t, f, p, false);
      (exists x: nat :: LiveAt(t, x) && Covers(s.occupied, x) && Covers(s.free, x)) <==> Straddled(t)
  {
    var s := Cleanup(t, f, p, false);
    CleanupAsWritten(t, f, p, lo, hi, lo, hi);
    if Straddled(t) {
      var _, x := StraddledShows(t, lo, hi);
      FreedIsLive(t, lo, hi, x);
      CleanupLeavesLiveBytes(t, f, p, false, x);
      assert LiveAt(t, x) && Covers(s.occupied, x) && Covers(s.free, x);
    }
    forall x: nat | LiveAt(t, x) && Covers(s.free, x) ensures Straddled(t) {
      CoversSplitsByMark(t, x);
      LiveOrDead(t, lo, hi, x);
      FreedIsStraddled(t, x);
    }
  }

  // ----- Nodes -----

  /** The nodes of both trees and of the pool are distinct and together are `all`. */
  ghost predicate Owned(t: Tree, f: Tree, p: seq<TreeNode>, all: set<TreeNode>) {
    && Separate(t) && Separate(f) && NoRepeats(p)
    && Nodes(t) !! Nodes(f) && Nodes(t) !! Elems(p) && Nodes(f) !! Elems(p)
    && Nodes(t) + Nodes(f) + Elems(p) == all
  }

  lemma ElemsConcat(a: seq<TreeNode>, b: seq<TreeNode>)
    ensures Elems(a + b) == Elems(a) + Elems(b)
    ensures NoRepeats(a + b) <==> NoRepeats(a) && NoRepeats(b) && Elems(a) !! Elems(b)
  {
    var s := a + b;
    forall i | 0 <= i < |a| ensures s[i] == a[i] && s[i] in Elems(a) {}
    forall j | 0 <= j < |b| ensures s[|a| + j] == b[j] && b[j] in Elems(b) {}
    if NoRepeats(s) {
      forall i, j | 0 <= i < j < |b| ensures b[i] != b[j] { assert s[|a| + i] != s[|a| + j]; }
      forall n | n in a ensures n !in b {}
    }
  }

  /** Moving one node from the occupied side to the treap and the pool. */
  lemma MoveNode(t: Tree, f: Tree, f': Tree, p: seq<TreeNode>, freed: seq<TreeNode>, n: TreeNode, all: set<TreeNode>)
    requires Separate(t) && NoRepeats(p) && Nodes(t) !! Nodes(f) && Nodes(t) !! Elems(p) && Nodes(f) !! Elems(p)
    requires n !in Nodes(t) && n !in Nodes(f) && n !in Elems(p)
    requires Nodes(t) + {n} + Nodes(f) + Elems(p) == all
    requires Separate(f') && NoRepeats(freed) && Nodes(f') !! Elems(freed) && Nodes(f') + Elems(freed) == Nodes(f) + {n}
    ensures Owned(t, f', freed + p, all)
  {
    ElemsConcat(freed, p);
    MoveSets(Nodes(t), Nodes(f), Nodes(f'), Elems(p), Elems(freed), n, all);
  }

  lemma MoveSets(t: set<TreeNode>, f: set<TreeNode>, f': set<TreeNode>, p: set<TreeNode>, freed: set<TreeNode>,
                 n: TreeNode, all: set<TreeNode>)
    requires t !! f && t !! p && f !! p && n !in t && n !in f && n !in p && t + {n} + f + p == all
    requires f' !! freed && f' + freed == f + {n}
    ensures freed !! p && t !! f' && t !! (freed + p) && f' !! (freed + p) && t + f' + (freed + p) == all
  {
    forall m | m in f' || m in freed ensures m in f || m == n { assert m in f' + freed; }
  }

  lemma OwnedLeft(t: Tree, f: Tree, p: seq<TreeNode>, all: set<TreeNode>)
    requires t.Fork? && Owned(t, f, p, all)
    ensures Owned(t.left, f, p, all - {t.node} - Nodes(t.right))
    ensures t.node in all && t.node !in Nodes(t.right) && Nodes(t.right) <= all
  {
  }

  /** After the left subtree, the right one still owns its nodes. */
  lemma OwnedRight(t: Tree, l': Tree, f1: Tree, p1: seq<TreeNode>, all: set<TreeNode>)
    requires t.Fork? && Separate(t) && Nodes(t) <= all
    requires Owned(l', f1, p1, all - {t.node} - Nodes(t.right))
    ensures Owned(t.right, f1, p1, all - {t.node} - Nodes(l'))
    ensures Nodes(l') !! Nodes(t.right) && t.node !in Nodes(l') && Nodes(l') <= all
  {
  }

  lemma OwnedRoot(n: TreeNode, b: Block, l': Tree, r': Tree, f2: Tree, p2: seq<TreeNode>, all: set<TreeNode>)
    requires n in all && n !in Nodes(l') && Separate(l') && Nodes(l') <= all
    requires Owned(r', f2, p2, all - {n} - Nodes(l'))
    ensures Owned(Fork(n, b, l', r'), f2, p2, all)
  {
  }

  /** The walk moves nodes between the two trees and the pool and loses none. */
  lemma {:induction false} CleanupKeepsNodes(t: Tree, f: Tree, p: seq<TreeNode>, repaired: bool, all: set<TreeNode>)
    requires Owned(t, f, p, all)
    ensures var s := Cleanup(t, f, p, repaired); Owned(s.occupied, s.free, s.pool, all)
  {
    if t.Fork? {
      var (n, b) := (t.node, t.block);
      var s1 := Cleanup(t.left, f, p, repaired);
      var s2 := Cleanup(t.right, s1.free, s1.pool, repaired);
      OwnedLeft(t, f, p, all);
      CleanupKeepsNodes(t.left, f, p, repaired, all - {n} - Nodes(t.right));
      OwnedRight(t, s1.occupied, s1.free, s1.pool, all);
      CleanupKeepsNodes(t.right, s1.free, s1.pool, repaired, all - {n} - Nodes(s1.occupied));
      var m := Fork(n, b, s1.occupied, s2.occupied);
      OwnedRoot(n, b, s1.occupied, s2.occupied, s2.free, s2.pool, all);
      if b.isMarked {
        OwnedRoot(n, b.(isMarked := false), s1.occupied, s2.occupied, s2.free, s2.pool, all);
      } else {
        MoveRoot(m, s2.free, s2.pool, repaired, all);
      }
    }
  }

  lemma MoveRoot(m: Tree, f: Tree, p: seq<TreeNode>, repaired: bool, all: set<TreeNode>)
    requires m.Fork? && Owned(m, f, p, all)
    ensures
      var rm := RemoveBst(m, m.block.addr, repaired);
      var ins := InsertTreap(f, rm.out.value.node, rm.out.value.block);
      Owned(rm.rest, ins.tree, ins.freed + p, all)
  {
    RemoveRootNodes(m, repaired);
    var rm := RemoveBst(m, m.block.addr, repaired);
    var (n, b) := (rm.out.value.node, rm.out.value.block);
    InsertTreapNodes(f, n, b);
    MoveNode(rm.rest, f, InsertTreap(f, n, b).tree, p, InsertTreap(f, n, b).freed, n, all);
  }
}
