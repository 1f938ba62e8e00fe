/**
 Which objects a conservative marker can reach: chains of words that resolve to
 objects.  `avoid` is a set of objects a chain may not pass through; with the
 empty set this is plain reachability.
 */
module Reachability {
  import T = BlockTrees
  import opened Objects

  /** The object that word `k` of object `o` resolves to. */
  function Child(l: Layout, mem: nat -> nat, o: nat, k: nat): T.Option<nat> { GetObject(l, mem(o + 8 * k)) }

  ghost predicate Edge(l: Layout, mem: nat -> nat, o: nat, p: nat) {
    exists k: nat :: 8 * k < ObjectSize(l, o) && Child(l, mem, o, k) == T.Some(p)
  }

  /** There is an edge exactly when some word inside the object, counted from its start, resolves to the target. */
  lemma EdgeIsPointer(l: Layout, mem: nat -> nat, o: nat, p: nat)
    requires LayoutOk(l) && IsObject(l, o) && Whole(l, o)
    ensures Edge(l, mem, o, p) <==>
      exists a: nat :: GetObject(l, a) == T.Some(o) && (a - o) % 8 == 0 && GetObject(l, mem(a)) == T.Some(p)
  {
    if Edge(l, mem, o, p) {
      var k: nat :| 8 * k < ObjectSize(l, o) && Child(l, mem, o, k) == T.Some(p);
      ObjectExtent(l, o, o + 8 * k);
    }
    if a: nat :| GetObject(l, a) == T.Some(o) && (a - o) % 8 == 0 && GetObject(l, mem(a)) == T.Some(p) {
      ObjectExtent(l, o, a);
      var k := (a - o) / 8;
      assert a == o + 8 * k && Child(l, mem, o, k) == T.Some(p);
    }
  }

  ghost predicate IsRoot(l: Layout, roots: seq<nat>, p: nat) {
    exists i :: 0 <= i < |roots| && GetObject(l, roots[i]) == T.Some(p)
  }

  ghost predicate IsPath(l: Layout, mem: nat -> nat, roots: seq<nat>, avoid: set<nat>, p: seq<nat>) {
    && |p| > 0 && IsRoot(l, roots, p[0])
    && (forall i :: 0 <= i < |p| ==> p[i] !in avoid)
    && (forall i :: 0 <= i < |p| - 1 ==> Edge(l, mem, p[i], p[i + 1]))
  }

  ghost predicate Reachable(l: Layout, mem: nat -> nat, roots: seq<nat>, avoid: set<nat>, o: nat) {
    exists p :: IsPath(l, mem, roots, avoid, p) && p[|p| - 1] == o
  }

  lemma RootReachable(l: Layout, mem: nat -> nat, roots: seq<nat>, avoid: set<nat>, o: nat)
    requires IsRoot(l, roots, o) && o !in avoid
    ensures Reachable(l, mem, roots, avoid, o)
  {
    assert IsPath(l, mem, roots, avoid, [o]);
  }

  lemma EdgeReachable(l: Layout, mem: nat -> nat, roots: seq<nat>, avoid: set<nat>, o: nat, q: nat)
    requires Reachable(l, mem, roots, avoid, o) && Edge(l, mem, o, q) && q !in avoid
    ensures Reachable(l, mem, roots, avoid, q)
  {
    var p :| IsPath(l, mem, roots, avoid, p) && p[|p| - 1] == o;
    var p' := p + [q];
    forall i | 0 <= i < |p'| - 1 ensures Edge(l, mem, p'[i], p'[i + 1]) {
      if i < |p| - 1 { assert Edge(l, mem, p[i], p[i + 1]); }
    }
    assert IsPath(l, mem, roots, avoid, p');
  }

  lemma MoreRoots(l: Layout, mem: nat -> nat, roots: seq<nat>, more: seq<nat>, avoid: set<nat>, o: nat)
    requires Reachable(l, mem, roots, avoid, o)
    ensures Reachable(l, mem, roots + more, avoid, o)
  {
    var p :| IsPath(l, mem, roots, avoid, p) && p[|p| - 1] == o;
    var i :| 0 <= i < |roots| && GetObject(l, roots[i]) == T.Some(p[0]);
    assert (roots + more)[i] == roots[i];
    assert IsPath(l, mem, roots + more, avoid, p);
  }

  /** A set that holds the roots and is closed away from `avoid` holds everything reachable. */
  lemma {:induction false} ClosedHoldsPath(l: Layout, mem: nat -> nat, roots: seq<nat>, avoid: set<nat>, m: set<nat>, p: seq<nat>)
    requires IsPath(l, mem, roots, avoid, p)
    requires forall o :: IsRoot(l, roots, o) ==> o in m
    requires forall o, q :: o in m && o !in avoid && Edge(l, mem, o, q) ==> q in m
    ensures p[|p| - 1] in m
    decreases |p|
  {
    if |p| > 1 {
      var prefix := p[..|p| - 1];
      assert IsPath(l, mem, roots, avoid, prefix);
      ClosedHoldsPath(l, mem, roots, avoid, m, prefix);
      assert Edge(l, mem, p[|p| - 2], p[|p| - 1]);
    }
  }

  /** Every reachable object is an object. */
  lemma ReachableIsObject(l: Layout, mem: nat -> nat, roots: seq<nat>, avoid: set<nat>, o: nat)
    requires LayoutOk(l) && Reachable(l, mem, roots, avoid, o)
    ensures IsObject(l, o)
  {
    var p :| IsPath(l, mem, roots, avoid, p) && p[|p| - 1] == o;
    if |p| == 1 {
      var i :| 0 <= i < |roots| && GetObject(l, roots[i]) == T.Some(o);
      ResolvesToStart(l, roots[i], o);
    } else {
      assert Edge(l, mem, p[|p| - 2], p[|p| - 1]);
      var k: nat :| 8 * k < ObjectSize(l, p[|p| - 2]) && Child(l, mem, p[|p| - 2], k) == T.Some(o);
      ResolvesToStart(l, mem(p[|p| - 2] + 8 * k), o);
    }
  }
}
