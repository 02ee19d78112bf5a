/** Walks in a finite directed relation: the meaning of every graph query. */
module Walks {

  type Relation = set<(nat, nat)>

  /** p is a walk: consecutive nodes are related.  A single node is a walk. */
  ghost predicate IsWalk(r: Relation, p: seq<nat>) {
    |p| > 0 && forall i, j :: 0 <= i && j == i + 1 && j < |p| ==> (p[i], p[j]) in r
  }

  ghost predicate WalkFromTo(r: Relation, p: seq<nat>, s: nat, t: nat) {
    IsWalk(r, p) && p[0] == s && p[|p| - 1] == t
  }

  /** Some non-empty walk (at least one step) leads from s to t. */
  ghost predicate Reach(r: Relation, s: nat, t: nat) {
    exists p :: WalkFromTo(r, p, s, t) && |p| > 1
  }

  /** Some walk, possibly without a step, leads from s to t. */
  ghost predicate ReachStar(r: Relation, s: nat, t: nat) {
    s == t || Reach(r, s, t)
  }

  lemma StepIsReach(r: Relation, s: nat, t: nat)
    requires (s, t) in r
    ensures Reach(r, s, t)
  {
    assert WalkFromTo(r, [s, t], s, t);
  }

  lemma JoinWalks(r: Relation, p: seq<nat>, q: seq<nat>, s: nat, m: nat, t: nat)
    requires WalkFromTo(r, p, s, m) && WalkFromTo(r, q, m, t)
    ensures WalkFromTo(r, p + q[1..], s, t)
  {
    var w := p + q[1..];
    forall i, j | 0 <= i && j == i + 1 && j < |w| ensures (w[i], w[j]) in r {
      if j < |p| {
        assert w[i] == p[i] && w[j] == p[j];
      } else {
        assert w[j] == q[j - |p| + 1];
        assert w[i] == q[i - |p| + 1];
      }
    }
  }

  lemma ReachTransitive(r: Relation, s: nat, m: nat, t: nat)
    requires Reach(r, s, m) && Reach(r, m, t)
    ensures Reach(r, s, t)
  {
    var p :| WalkFromTo(r, p, s, m) && |p| > 1;
    var q :| WalkFromTo(r, q, m, t) && |q| > 1;
    JoinWalks(r, p, q, s, m, t);
  }

  lemma ReachStep(r: Relation, s: nat, m: nat, t: nat)
    requires ReachStar(r, s, m) && (m, t) in r
    ensures Reach(r, s, t)
  {
    StepIsReach(r, m, t);
    if s != m { ReachTransitive(r, s, m, t); }
  }

  /** A part of a walk is a walk. */
  lemma SubWalk(r: Relation, p: seq<nat>, i: nat, j: nat)
    requires IsWalk(r, p) && i < j <= |p|
    ensures WalkFromTo(r, p[i..j], p[i], p[j - 1])
  {}

  lemma WalkIsReach(r: Relation, p: seq<nat>, i: nat, j: nat)
    requires IsWalk(r, p) && i < j < |p|
    ensures Reach(r, p[i], p[j])
  {
    SubWalk(r, p, i, j + 1);
  }

  /** A set that holds every direct successor of s and is closed under r holds all that s reaches. */
  lemma {:induction false} WalkStaysInside(r: Relation, p: seq<nat>, inside: set<nat>, k: nat)
    requires IsWalk(r, p) && 0 < k < |p|
    requires forall v :: (p[0], v) in r ==> v in inside
    requires forall u, v :: u in inside && (u, v) in r ==> v in inside
    ensures p[k] in inside
  {
    assert (p[k - 1], p[k]) in r;
    if k > 1 { WalkStaysInside(r, p, inside, k - 1); }
  }

  lemma ReachStaysInside(r: Relation, s: nat, t: nat, inside: set<nat>)
    requires forall v :: (s, v) in r ==> v in inside
    requires forall u, v :: u in inside && (u, v) in r ==> v in inside
    requires t !in inside
    ensures !Reach(r, s, t)
  {
    if Reach(r, s, t) {
      var p :| WalkFromTo(r, p, s, t) && |p| > 1;
      WalkStaysInside(r, p, inside, |p| - 1);
    }
  }
}
