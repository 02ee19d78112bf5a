/** The order in which breadth-first search with sorted neighbours visits walks: by length, then
    lexicographically by ids. */
module Shortlex {
  import opened Ir

  function Init(p: seq<Id>): seq<Id>
    requires p != []
  {
    p[..|p| - 1]
  }

  function Last(p: seq<Id>): Id
    requires p != []
  {
    p[|p| - 1]
  }

  /** Lexicographic order on sequences of one length. */
  ghost predicate LexLess(p: seq<Id>, q: seq<Id>)
    requires |p| == |q|
    decreases |p|
  {
    p != [] && (LexLess(Init(p), Init(q)) || (Init(p) == Init(q) && Last(p) < Last(q)))
  }

  ghost predicate Less(p: seq<Id>, q: seq<Id>) {
    |p| < |q| || (|p| == |q| && LexLess(p, q))
  }

  ghost predicate AtMost(p: seq<Id>, q: seq<Id>) {
    p == q || Less(p, q)
  }

  /** LexLess is the usual order: the sequences first differ at an index where p is smaller. */
  lemma {:induction false} LexLessMeaning(p: seq<Id>, q: seq<Id>)
    requires |p| == |q|
    ensures LexLess(p, q) <==> exists k :: 0 <= k < |p| && p[..k] == q[..k] && p[k] < q[k]
    decreases |p|
  {
    if p != [] {
      LexLessMeaning(Init(p), Init(q));
      if LexLess(Init(p), Init(q)) {
        var k :| 0 <= k < |Init(p)| && Init(p)[..k] == Init(q)[..k] && Init(p)[k] < Init(q)[k];
        assert p[..k] == Init(p)[..k] && q[..k] == Init(q)[..k];
        assert p[k] < q[k];
      } else if Init(p) == Init(q) && Last(p) < Last(q) {
        assert p[..|p| - 1] == q[..|p| - 1];
      }
      if k :| 0 <= k < |p| && p[..k] == q[..k] && p[k] < q[k] {
        if k < |p| - 1 {
          assert Init(p)[..k] == p[..k] && Init(q)[..k] == q[..k];
          assert Init(p)[k] < Init(q)[k];
        }
      }
    }
  }

  lemma {:induction false} LexTransitive(p: seq<Id>, q: seq<Id>, r: seq<Id>)
    requires |p| == |q| == |r| && LexLess(p, q) && LexLess(q, r)
    ensures LexLess(p, r)
    decreases |p|
  {
    if LexLess(Init(p), Init(q)) && LexLess(Init(q), Init(r)) {
      LexTransitive(Init(p), Init(q), Init(r));
    }
  }

  lemma Transitive(p: seq<Id>, q: seq<Id>, r: seq<Id>)
    requires AtMost(p, q) && AtMost(q, r)
    ensures AtMost(p, r) && (Less(p, q) || Less(q, r) ==> Less(p, r))
  {
    if |p| == |q| == |r| && p != q && q != r { LexTransitive(p, q, r); }
  }

  lemma Appending(p: seq<Id>, a: Id, q: seq<Id>, b: Id)
    requires AtMost(p, q) && (Less(p, q) || a <= b)
    ensures AtMost(p + [a], q + [b])
    ensures Less(p, q) || a < b ==> Less(p + [a], q + [b])
  {
    assert Init(p + [a]) == p && Init(q + [b]) == q;
  }

  lemma {:induction false} LexIrreflexive(p: seq<Id>)
    ensures !LexLess(p, p)
    decreases |p|
  {
    if p != [] { LexIrreflexive(Init(p)); }
  }

  lemma Antisymmetric(p: seq<Id>, q: seq<Id>)
    requires AtMost(p, q) && AtMost(q, p)
    ensures p == q
  {
    if p != q {
      LexTransitive(p, q, p);
      LexIrreflexive(p);
    }
  }
}
