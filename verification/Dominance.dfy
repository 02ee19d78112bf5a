/** What the dominance queries of ControlFlow guarantee to the analyzers. */
module Dominance {
  import opened Walks
  import opened Ir
  import opened ControlFlow

  lemma {:induction false} LastIndex(w: seq<Id>, d: Id) returns (k: nat)
    requires d in w
    ensures k < |w| && w[k] == d && forall j :: k < j < |w| ==> w[j] != d
    decreases |w|
  {
    if w[|w| - 1] == d {
      k := |w| - 1;
    } else {
      assert w == w[..|w| - 1] + [w[|w| - 1]];
      k := LastIndex(w[..|w| - 1], d);
    }
  }

  /** If d1 is last seen before d2 on some entry walk to n, then d1 dominates d2. */
  lemma EarlierDominatesLater(g: Graph, entries: set<Id>, w: seq<Id>, k1: nat, k2: nat)
    requires IsWalk(Rel(g), w) && w[0] in entries && k1 < k2 < |w|
    requires forall j :: k1 < j < |w| ==> w[j] != w[k1]
    requires EntryDominates(g, entries, w[k1], w[|w| - 1])
    ensures EntryDominates(g, entries, w[k1], w[k2])
  {
    forall q | IsWalk(Rel(g), q) && q[0] in entries && q[|q| - 1] == w[k2] ensures w[k1] in q {
      var rest := w[k2..];
      SubWalk(Rel(g), w, k2, |w|);
      JoinWalks(Rel(g), q, rest, q[0], w[k2], w[|w| - 1]);
      assert w[k1] in q + rest[1..];
      assert forall j :: 0 <= j < |rest| ==> rest[j] == w[k2 + j];
    }
  }

  /** Dominators of a reachable operation form a chain under dominance. */
  lemma DominatorsFormChain(g: Graph, scope: Id, n: Id, d1: Id, d2: Id)
    requires exists w :: IsWalk(Rel(g), w) && w[0] in Entries(g, scope) && w[|w| - 1] == n
    requires EntryDominates(g, Entries(g, scope), d1, n) && EntryDominates(g, Entries(g, scope), d2, n)
    ensures EntryDominates(g, Entries(g, scope), d1, d2) || EntryDominates(g, Entries(g, scope), d2, d1)
  {
    var entries := Entries(g, scope);
    var w :| IsWalk(Rel(g), w) && w[0] in entries && w[|w| - 1] == n;
    var k1 := LastIndex(w, d1);
    var k2 := LastIndex(w, d2);
    if k1 < k2 {
      EarlierDominatesLater(g, entries, w, k1, k2);
    } else if k2 < k1 {
      EarlierDominatesLater(g, entries, w, k2, k1);
    }
  }

  /** In a scope with one entry, path-scoped dominance from that entry is classical dominance. */
  lemma AlgorithmsAgree(g: Graph, e: Id, d: Id, n: Id)
    requires WellFormed(g) && e in g.ops && Entries(g, g.ops[e].scope) == {e}
    requires n != e && Reach(Rel(g), e, n) && d in g.ops
    ensures DominatesBetweenSpec(g, e, d, n) <==> DominatesSpec(g, d, n)
  {
    ReachKeepsScope(g, e, n);
    if DominatesSpec(g, d, n) && d != n {
      assert EveryWalkVisits(g, e, d, n);
    }
    if DominatesBetweenSpec(g, e, d, n) {
      forall p | IsWalk(Rel(g), p) && p[0] in {e} && p[|p| - 1] == n ensures d in p {
        assert p[0] == e && |p| > 1;
        assert WalkFromTo(Rel(g), p, e, n);
        if d == n { assert p[|p| - 1] == d; }
        if d == e { assert p[0] == d; }
      }
    }
  }

  /** The documented reading of dominates_between, and exactly where the code departs from it:
      asked whether the target dominates itself, it answers whether the target is reachable. */
  lemma DominatesBetweenMeaning(g: Graph, s: Id, d: Id, t: Id)
    requires SameScope(g, s, d) && SameScope(g, s, t)
    ensures DominatesBetweenSpec(g, s, d, t) <==>
            EveryWalkVisits(g, s, d, t) && (s == d || d != t || Reach(Rel(g), s, t))
    ensures (DominatesBetweenSpec(g, s, d, t) <==> EveryWalkVisits(g, s, d, t)) <==>
            (s == d || d != t || Reach(Rel(g), s, t))
  {
    if s == d || d == t {
      forall p | WalkFromTo(Rel(g), p, s, t) && |p| > 1 ensures d in p {
        assert p[0] in p && p[|p| - 1] in p;
      }
    }
  }

  /** Two operations without an edge: every walk from 1 to 2 visits 2, yet the query says no. */
  lemma UnreachableTargetIsNotDominated()
    ensures var op := (id: Id) => Op(id, Unknown, "go", 9, id, id, "", "", NO_ID, [], []);
            var g := GraphOf([op(1), op(2)], []);
            SameScope(g, 1, 2) && EveryWalkVisits(g, 1, 2, 2) && !DominatesBetweenSpec(g, 1, 2, 2)
  {
    var op := (id: Id) => Op(id, Unknown, "go", 9, id, id, "", "", NO_ID, [], []);
    var g := GraphOf([op(1), op(2)], []);
    assert [op(1), op(2)][..1] == [op(1)] && [op(1)][..0] == [];
    assert OpsById([op(1)]) == map[1 := op(1)];
    assert g.ops == map[1 := op(1), 2 := op(2)];
    assert !Reach(Rel(g), 1, 2) by { ReachStaysInside(Rel(g), 1, 2, {}); }
  }

  /** Dominance on a reachable pair already implies the two reachability tests next to it. */
  lemma DominatorLiesBetween(g: Graph, s: Id, d: Id, t: Id)
    requires DominatesBetweenSpec(g, s, d, t) && Reach(Rel(g), s, t) && d != s && d != t
    ensures Reach(Rel(g), s, d) && Reach(Rel(g), d, t)
  {
    var p :| WalkFromTo(Rel(g), p, s, t) && |p| > 1;
    var k :| 0 <= k < |p| && p[k] == d;
    WalkIsReach(Rel(g), p, 0, k);
    WalkIsReach(Rel(g), p, k, |p| - 1);
  }
}
