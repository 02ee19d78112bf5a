/** Finite-sequence and finite-set helpers shared by the models. */
module Sequences {

  /** The elements of s that satisfy f, in order (a list comprehension with a filter). */
  function Filter<T(!new)>(f: T -> bool, s: seq<T>): (r: seq<T>)
    ensures forall x :: x in r <==> x in s && f(x)
    ensures |r| <= |s|
  {
    if s == [] then [] else (if f(s[0]) then [s[0]] else []) + Filter(f, s[1..])
  }

  lemma FilterTwo<T(!new)>(f: T -> bool, s: seq<T>)
    requires |s| == 2
    ensures Filter(f, s) == (if f(s[0]) then [s[0]] else []) + (if f(s[1]) then [s[1]] else [])
  {
    assert s[1..][1..] == [];
    assert Filter(f, s[1..]) == if f(s[1]) then [s[1]] else [];
  }

  /** The image of s under f, position by position. */
  function MapSeq<T(!new), U>(f: T -> U, s: seq<T>): (r: seq<U>)
    ensures |r| == |s|
    ensures forall i :: 0 <= i < |s| ==> r[i] == f(s[i])
    ensures forall x :: x in s ==> f(x) in r
  {
    if s == [] then [] else [f(s[0])] + MapSeq(f, s[1..])
  }

  /** The first element of s that satisfies f, as Python's next(..., None) finds it. */
  datatype Option<+T> = None | Some(value: T)

  function Find<T(!new)>(f: T -> bool, s: seq<T>): (r: Option<T>)
    ensures r.None? <==> forall x :: x in s ==> !f(x)
    ensures r.Some? ==> r.value in s && f(r.value)
    ensures r.Some? ==> exists i :: 0 <= i < |s| && s[i] == r.value && forall j :: 0 <= j < i ==> !f(s[j])
  {
    if s == [] then None
    else if f(s[0]) then Some(s[0])
    else
      var rest := Find(f, s[1..]);
      assert rest.Some? ==> exists i :: 0 <= i < |s| && s[i] == rest.value && forall j :: 0 <= j < i ==> !f(s[j]) by {
        if rest.Some? {
          var i :| 0 <= i < |s[1..]| && s[1..][i] == rest.value && forall j :: 0 <= j < i ==> !f(s[1..][j]);
          assert s[i + 1] == rest.value;
          forall j | 0 <= j < i + 1 ensures !f(s[j]) {
            if j > 0 { assert s[j] == s[1..][j - 1]; }
          }
        }
      }
      rest
  }

  lemma SplitLast<T>(s: seq<T>)
    requires s != []
    ensures s == s[..|s| - 1] + [s[|s| - 1]]
  {}

  /** set(s) */
  function SetOf<T>(s: seq<T>): set<T> {
    set x | x in s
  }

  /** No element occurs twice. */
  ghost predicate Distinct<T>(s: seq<T>) {
    forall i, j :: 0 <= i < j < |s| ==> s[i] != s[j]
  }

  lemma SingletonSet<T>(s: set<T>)
    requires |s| == 1
    ensures exists x :: s == {x}
  {
    var x :| x in s;
    assert |s - {x}| == 0;
    assert s == {x};
  }

  // ---------- merging by key ----------

  /** Appends the items that are not there yet, one after the other. */
  function Merge<K(==)>(existing: seq<K>, more: seq<K>): seq<K>
    decreases |more|
  {
    if more == [] then existing
    else
      var before := Merge(existing, more[..|more| - 1]);
      if more[|more| - 1] in before then before else before + [more[|more| - 1]]
  }

  /** Merging keeps what was there in place, adds everything new once, and nothing else. */
  lemma {:induction false} MergeMeaning<K(!new)>(existing: seq<K>, more: seq<K>)
    ensures var r := Merge(existing, more);
            && |existing| <= |r| && r[..|existing|] == existing
            && (forall k :: k in r <==> k in existing || k in more)
            && (forall i :: |existing| <= i < |r| ==> r[i] !in r[..i])
    decreases |more|
  {
    if more != [] {
      SplitLast(more);
      MergeMeaning(existing, more[..|more| - 1]);
      var before, r := Merge(existing, more[..|more| - 1]), Merge(existing, more);
      forall i | |existing| <= i < |r| ensures r[i] !in r[..i] {
        if i < |before| {
          assert r[i] == before[i] && r[..i] == before[..i];
        } else {
          assert r[..i] == before;
        }
      }
    }
  }

  lemma {:induction false} MergeKnown<K(!new)>(existing: seq<K>, more: seq<K>)
    requires forall k :: k in more ==> k in existing
    ensures Merge(existing, more) == existing
    decreases |more|
  {
    if more != [] {
      SplitLast(more);
      MergeKnown(existing, more[..|more| - 1]);
    }
  }

  // ---------- sorting ----------

  ghost predicate SortedBy<T>(leq: (T, T) -> bool, s: seq<T>) {
    forall i, j :: 0 <= i < j < |s| ==> leq(s[i], s[j])
  }

  ghost predicate TotalPreorder<T(!new)>(leq: (T, T) -> bool) {
    && (forall x, y :: leq(x, y) || leq(y, x))
    && (forall x, y, z :: leq(x, y) && leq(y, z) ==> leq(x, z))
  }

  function Insert<T>(leq: (T, T) -> bool, x: T, s: seq<T>): (r: seq<T>)
    ensures multiset(r) == multiset(s) + multiset{x}
    ensures |r| == |s| + 1
  {
    if s == [] then [x]
    else if leq(x, s[0]) then [x] + s
    else
      assert s == [s[0]] + s[1..];
      [s[0]] + Insert(leq, x, s[1..])
  }

  /** A stable sort: Python's sorted(s, key=...) for the key order leq. */
  function Sort<T>(leq: (T, T) -> bool, s: seq<T>): (r: seq<T>)
    ensures multiset(r) == multiset(s)
    ensures |r| == |s|
  {
    if s == [] then []
    else
      assert s == [s[0]] + s[1..];
      Insert(leq, s[0], Sort(leq, s[1..]))
  }

  lemma {:induction false} InsertKeepsSorted<T(!new)>(leq: (T, T) -> bool, x: T, s: seq<T>)
    requires TotalPreorder(leq) && SortedBy(leq, s)
    ensures SortedBy(leq, Insert(leq, x, s))
  {
    if s != [] && !leq(x, s[0]) {
      InsertKeepsSorted(leq, x, s[1..]);
      var rest := Insert(leq, x, s[1..]);
      forall k | 0 <= k < |rest| ensures leq(s[0], rest[k]) {
        assert rest[k] in multiset(rest);
        if rest[k] != x {
          assert rest[k] in multiset(s[1..]);
          assert rest[k] in s[1..];
        }
      }
    } else if s != [] {
      forall k | 0 <= k < |s| ensures leq(x, s[k]) {}
    }
  }

  lemma {:induction false} SortIsSorted<T(!new)>(leq: (T, T) -> bool, s: seq<T>)
    requires TotalPreorder(leq)
    ensures SortedBy(leq, Sort(leq, s))
  {
    if s != [] {
      SortIsSorted(leq, s[1..]);
      InsertKeepsSorted(leq, s[0], Sort(leq, s[1..]));
    }
  }

  lemma SortKeepsElements<T(!new)>(leq: (T, T) -> bool, s: seq<T>)
    ensures forall x :: x in Sort(leq, s) <==> x in s
  {
    forall x ensures x in Sort(leq, s) <==> x in s {
      assert x in multiset(Sort(leq, s)) <==> x in multiset(s);
    }
  }

  // ---------- sets of numbers ----------

  function MinOf(s: set<nat>): (m: nat)
    requires s != {}
    ensures m in s && forall x :: x in s ==> m <= x
  {
    assert exists m :: IsMin(s, m) by { var m := MinExists(s); }
    var m :| IsMin(s, m);
    m
  }

  predicate IsMin(s: set<nat>, m: nat) {
    m in s && forall x :: x in s ==> m <= x
  }

  lemma {:induction false} MinExists(s: set<nat>) returns (m: nat)
    requires s != {}
    ensures IsMin(s, m)
    decreases |s|
  {
    var y :| y in s;
    m := y;
    if s - {y} != {} {
      var k := MinExists(s - {y});
      m := if y <= k then y else k;
      forall x | x in s ensures m <= x {
        if x != y { assert x in s - {y}; }
      }
    }
    assert s - {y} == {} ==> s == {y};
  }

  ghost predicate Ascending(r: seq<nat>) {
    forall i, j :: 0 <= i < j < |r| ==> r[i] < r[j]
  }

  /** sorted(s) for a set of ids. */
  function SortedSet(s: set<nat>): (r: seq<nat>)
    ensures forall x :: x in r <==> x in s
    ensures Ascending(r)
    decreases |s|
  {
    if s == {} then [] else
      var m := MinOf(s);
      var rest := SortedSet(s - {m});
      PrependAscending(m, rest);
      [m] + rest
  }

  lemma PrependAscending(m: nat, rest: seq<nat>)
    requires Ascending(rest) && forall x :: x in rest ==> m < x
    ensures Ascending([m] + rest)
  {
    var r := [m] + rest;
    assert forall j :: 0 < j < |r| ==> r[j] == rest[j - 1] && rest[j - 1] in rest;
  }
}
