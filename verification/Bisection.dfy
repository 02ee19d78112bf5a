/** Breadth-first bisection order (_midpoint_order, smartbench/engine/project_reader.py). */
module Bisection {
  import opened Sequences
  import opened Multisets

  type Range = (nat, nat)

  ghost predicate Within(ranges: seq<Range>, n: nat) {
    forall r :: r in ranges ==> r.1 <= n
  }

  /** The ranges before the first round. */
  function Whole(n: nat): seq<Range> {
    [(0, n)]
  }

  /** The midpoint of a range as a list of at most one item; empty ranges have none. */
  function MidpointOf<T>(items: seq<T>, r: Range): seq<T>
    requires r.1 <= |items|
  {
    if r.0 >= r.1 then [] else [items[(r.0 + r.1) / 2]]
  }

  function Halves(r: Range): seq<Range> {
    if r.0 >= r.1 then [] else [(r.0, (r.0 + r.1) / 2), ((r.0 + r.1) / 2 + 1, r.1)]
  }

  /** The items one round emits. */
  function Midpoints<T>(items: seq<T>, ranges: seq<Range>): seq<T>
    requires Within(ranges, |items|)
    decreases |ranges|
  {
    if ranges == [] then []
    else
      assert forall r :: r in ranges[..|ranges| - 1] ==> r in ranges;
      Midpoints(items, ranges[..|ranges| - 1]) + MidpointOf(items, ranges[|ranges| - 1])
  }

  /** The ranges one round leaves. */
  function NextRanges(ranges: seq<Range>): seq<Range>
    decreases |ranges|
  {
    if ranges == [] then [] else NextRanges(ranges[..|ranges| - 1]) + Halves(ranges[|ranges| - 1])
  }

  function RangesAfter(ranges: seq<Range>, rounds: nat): seq<Range>
    decreases rounds
  {
    if rounds == 0 then ranges else NextRanges(RangesAfter(ranges, rounds - 1))
  }

  function Length(r: Range): nat {
    if r.0 >= r.1 then 0 else r.1 - r.0
  }

  /** The items of a range. */
  function Span<T>(items: seq<T>, start: nat, end: nat): multiset<T>
    requires end <= |items|
    decreases end
  {
    if start >= end then multiset{} else Span(items, start, end - 1) + multiset{items[end - 1]}
  }

  lemma {:induction false} SpanSplits<T>(items: seq<T>, start: nat, m: nat, end: nat)
    requires start <= m < end <= |items|
    ensures Span(items, start, end) == Span(items, start, m) + multiset{items[m]} + Span(items, m + 1, end)
    decreases end
  {
    if m < end - 1 {
      SpanSplits(items, start, m, end - 1);
      Regroup(Span(items, start, m) + multiset{items[m]}, Span(items, m + 1, end - 1), multiset{items[end - 1]});
    }
  }

  lemma {:induction false} SpanIsPrefix<T>(items: seq<T>, end: nat)
    requires end <= |items|
    ensures Span(items, 0, end) == multiset(items[..end])
    decreases end
  {
    if end > 0 {
      SpanIsPrefix(items, end - 1);
      assert items[..end] == items[..end - 1] + [items[end - 1]];
    }
  }

  /** The items still to be emitted. */
  function Pending<T>(items: seq<T>, ranges: seq<Range>): multiset<T>
    requires Within(ranges, |items|)
    decreases |ranges|
  {
    if ranges == [] then multiset{}
    else
      assert forall r :: r in ranges[..|ranges| - 1] ==> r in ranges;
      Pending(items, ranges[..|ranges| - 1]) + Span(items, ranges[|ranges| - 1].0, ranges[|ranges| - 1].1)
  }

  /** Twice the items still to be emitted, plus one for every range: falls in every round. */
  function Work(ranges: seq<Range>): nat
    decreases |ranges|
  {
    if ranges == [] then 0 else Work(ranges[..|ranges| - 1]) + 2 * Length(ranges[|ranges| - 1]) + 1
  }

  lemma {:induction false} WorkAppend(a: seq<Range>, b: seq<Range>)
    ensures Work(a + b) == Work(a) + Work(b)
    decreases |b|
  {
    if b == [] {
      assert a + b == a;
    } else {
      assert (a + b)[..|a + b| - 1] == a + b[..|b| - 1];
      WorkAppend(a, b[..|b| - 1]);
    }
  }

  lemma {:induction false} RoundReducesWork(ranges: seq<Range>)
    ensures Work(NextRanges(ranges)) + (if ranges == [] then 0 else 1) <= Work(ranges)
    decreases |ranges|
  {
    if ranges != [] {
      var rest, r := ranges[..|ranges| - 1], ranges[|ranges| - 1];
      RoundReducesWork(rest);
      WorkAppend(NextRanges(rest), Halves(r));
      if r.0 < r.1 {
        var left, right := (r.0, (r.0 + r.1) / 2), ((r.0 + r.1) / 2 + 1, r.1);
        assert [left, right][..1] == [left];
        assert Work([left, right]) == Work([left]) + 2 * Length(right) + 1;
      }
    }
  }

  lemma {:induction false} PendingAppend<T>(items: seq<T>, a: seq<Range>, b: seq<Range>)
    requires Within(a, |items|) && Within(b, |items|)
    ensures Within(a + b, |items|) && Pending(items, a + b) == Pending(items, a) + Pending(items, b)
    decreases |b|
  {
    if b == [] {
      assert a + b == a;
    } else {
      assert (a + b)[..|a + b| - 1] == a + b[..|b| - 1];
      PendingAppend(items, a, b[..|b| - 1]);
    }
  }

  lemma HalvesKeepItems<T>(items: seq<T>, r: Range)
    requires r.1 <= |items|
    ensures Within(Halves(r), |items|)
    ensures Span(items, r.0, r.1) == multiset(MidpointOf(items, r)) + Pending(items, Halves(r))
  {
    if r.0 < r.1 {
      var m := (r.0 + r.1) / 2;
      PendingHalves(items, r, m);
      SpanSplits(items, r.0, m, r.1);
      Rotate(Span(items, r.0, m), multiset{items[m]}, Span(items, m + 1, r.1));
    }
  }

  lemma PendingHalves<T>(items: seq<T>, r: Range, m: nat)
    requires r.0 < r.1 <= |items| && m == (r.0 + r.1) / 2
    ensures Within(Halves(r), |items|)
    ensures Pending(items, Halves(r)) == Span(items, r.0, m) + Span(items, m + 1, r.1)
    ensures multiset(MidpointOf(items, r)) == multiset{items[m]}
  {
    var left: Range, right: Range := (r.0, m), (m + 1, r.1);
    PendingTwo(items, left, right);
    assert Halves(r) == [left, right];
  }

  lemma PendingTwo<T>(items: seq<T>, left: Range, right: Range)
    requires left.1 <= |items| && right.1 <= |items|
    ensures Within([left, right], |items|)
    ensures Pending(items, [left, right]) == Span(items, left.0, left.1) + Span(items, right.0, right.1)
  {
    assert [left, right][..1] == [left] && [left][..0] == [];
    assert Pending(items, [left]) == Span(items, left.0, left.1);
  }

  /** One round moves items from the pending ranges to the output, losing and repeating none. */
  lemma {:induction false} RoundKeepsItems<T>(items: seq<T>, ranges: seq<Range>)
    requires Within(ranges, |items|)
    ensures Within(NextRanges(ranges), |items|)
    ensures Pending(items, ranges) == multiset(Midpoints(items, ranges)) + Pending(items, NextRanges(ranges))
    decreases |ranges|
  {
    if ranges != [] {
      var rest, r := ranges[..|ranges| - 1], ranges[|ranges| - 1];
      assert ranges == rest + [r];
      RoundKeepsItems(items, rest);
      HalvesKeepItems(items, r);
      PendingAppend(items, NextRanges(rest), Halves(r));
    }
  }

  // ---------- range lengths ----------

  function Pow2(k: nat): (p: nat)
    ensures p >= 1
  {
    if k == 0 then 1 else 2 * Pow2(k - 1)
  }

  /** floor(log2 n) */
  function Log2(n: nat): (k: nat)
    requires n >= 1
    ensures Pow2(k) <= n < 2 * Pow2(k)
  {
    if n == 1 then 0 else
      var k := Log2(n / 2);
      assert Pow2(k + 1) == 2 * Pow2(k);
      k + 1
  }

  ghost predicate NoLongerThan(ranges: seq<Range>, n: nat) {
    forall r :: r in ranges ==> Length(r) <= n
  }

  lemma {:induction false} RoundHalvesLengths(ranges: seq<Range>, n: nat)
    requires NoLongerThan(ranges, n)
    ensures NoLongerThan(NextRanges(ranges), n / 2)
    decreases |ranges|
  {
    if ranges != [] {
      SplitLast(ranges);
      var r := ranges[|ranges| - 1];
      assert r in ranges && Length(r) <= n;
      RoundHalvesLengths(ranges[..|ranges| - 1], n);
      forall h | h in Halves(r) ensures Length(h) <= n / 2 {}
    }
  }

  /** floor(n / 2^k), by repeated halving. */
  function Halved(n: nat, k: nat): nat {
    if k == 0 then n else Halved(n, k - 1) / 2
  }

  /** Halving k times is dividing by 2^k. */
  lemma {:induction false} HalvedIsQuotient(n: nat, k: nat)
    ensures Halved(n, k) * Pow2(k) <= n < (Halved(n, k) + 1) * Pow2(k)
  {
    if k > 0 {
      HalvedIsQuotient(n, k - 1);
      HalveOnce(n, Halved(n, k - 1), Pow2(k - 1));
    }
  }

  lemma HalveOnce(n: nat, q: nat, p: nat)
    requires q * p <= n < (q + 1) * p
    ensures (q / 2) * (2 * p) <= n < (q / 2 + 1) * (2 * p)
  {
    var h, r := q / 2, q % 2;
    assert q == 2 * h + r;
    assert q * p == h * (2 * p) + r * p;
    assert (h + 1) * (2 * p) == (q + 1) * p + (1 - r) * p;
  }

  /** After k rounds no remaining range is longer than floor(n / 2^k). */
  lemma {:induction false} RangesShrink(n: nat, k: nat)
    ensures NoLongerThan(RangesAfter(Whole(n), k), Halved(n, k))
    decreases k
  {
    if k > 0 {
      RangesShrink(n, k - 1);
      RoundHalvesLengths(RangesAfter(Whole(n), k - 1), Halved(n, k - 1));
    }
  }

  lemma {:induction false} EmptyRangesVanish(ranges: seq<Range>)
    requires NoLongerThan(ranges, 0)
    ensures NextRanges(ranges) == []
    decreases |ranges|
  {
    if ranges != [] {
      SplitLast(ranges);
      assert ranges[|ranges| - 1] in ranges;
      EmptyRangesVanish(ranges[..|ranges| - 1]);
    }
  }

  lemma {:induction false} FirstHalfStaysFirst(ranges: seq<Range>)
    requires ranges != [] && ranges[0].0 < ranges[0].1
    ensures var r := ranges[0]; NextRanges(ranges) != [] && NextRanges(ranges)[0] == (r.0, (r.0 + r.1) / 2)
    decreases |ranges|
  {
    if |ranges| > 1 { FirstHalfStaysFirst(ranges[..|ranges| - 1]); }
  }

  /** The leftmost range after k rounds has length exactly floor(n / 2^k) while that is positive. */
  lemma {:induction false} LeftmostRange(n: nat, k: nat)
    requires k > 0 ==> Halved(n, k - 1) >= 1
    ensures RangesAfter(Whole(n), k) != [] && RangesAfter(Whole(n), k)[0] == (0, Halved(n, k))
    decreases k
  {
    if k > 0 {
      LeftmostRange(n, k - 1);
      LeftmostStep(RangesAfter(Whole(n), k - 1), RangesAfter(Whole(n), k), Halved(n, k - 1));
    }
  }

  lemma LeftmostStep(ranges: seq<Range>, next: seq<Range>, length: nat)
    requires ranges != [] && ranges[0] == (0, length) && length >= 1 && next == NextRanges(ranges)
    ensures next != [] && next[0] == (0, length / 2)
  {
    FirstHalfStaysFirst(ranges);
  }

  lemma HalvedAtLog(n: nat)
    requires n >= 1
    ensures Halved(n, Log2(n)) == 1 && Halved(n, Log2(n) + 1) == 0
  {
    var k := Log2(n);
    HalvedIsQuotient(n, k);
    QuotientIsOne(n, Halved(n, k), Pow2(k));
  }

  lemma QuotientIsOne(n: nat, q: nat, p: nat)
    requires p <= n < 2 * p && q * p <= n < (q + 1) * p
    ensures q == 1
  {
    if q >= 2 { MoreTimes(2, q, p); }
  }

  lemma MoreTimes(a: nat, b: nat, p: nat)
    requires a <= b
    ensures a * p <= b * p
  {
    assert b * p - a * p == (b - a) * p;
  }

  /** The rounds run for n items: exactly floor(log2 n) + 2, the last one over empty ranges only. */
  lemma RoundsAre(n: nat, rounds: nat)
    requires n >= 1
    requires RangesAfter(Whole(n), rounds) == [] && forall k: nat :: k < rounds ==> RangesAfter(Whole(n), k) != []
    ensures rounds == Log2(n) + 2
  {
    var top := Log2(n);
    HalvedAtLog(n);
    LeftmostRange(n, top + 1);
    RangesShrink(n, top + 1);
    EmptyRangesVanish(RangesAfter(Whole(n), top + 1));
    assert RangesAfter(Whole(n), top + 2) == [];
    if rounds < top + 2 {
      EmptyStaysEmpty(Whole(n), rounds, top + 1);
    }
  }

  lemma {:induction false} EmptyStaysEmpty(ranges: seq<Range>, k: nat, m: nat)
    requires k <= m && RangesAfter(ranges, k) == []
    ensures RangesAfter(ranges, m) == []
    decreases m
  {
    if k < m { EmptyStaysEmpty(ranges, k, m - 1); }
  }

  /** The output of all remaining rounds after what has been emitted: midpoints first. */
  function Bisected<T>(items: seq<T>, ranges: seq<Range>, emitted: seq<T>): seq<T>
    requires Within(ranges, |items|)
    decreases Work(ranges)
  {
    if ranges == [] then emitted
    else
      RoundReducesWork(ranges);
      RoundKeepsItems(items, ranges);
      Bisected(items, NextRanges(ranges), emitted + Midpoints(items, ranges))
  }

  /** The whole order. */
  function MidpointOrderOf<T>(items: seq<T>): seq<T> {
    Bisected(items, Whole(|items|), [])
  }

  lemma {:induction false} BisectedEmitsPending<T>(items: seq<T>, ranges: seq<Range>, emitted: seq<T>)
    requires Within(ranges, |items|)
    ensures multiset(Bisected(items, ranges, emitted)) == multiset(emitted) + Pending(items, ranges)
    decreases Work(ranges)
  {
    if ranges != [] {
      var next, more := NextRanges(ranges), Midpoints(items, ranges);
      RoundReducesWork(ranges);
      RoundKeepsItems(items, ranges);
      BisectedEmitsPending(items, next, emitted + more);
      AppendItems(emitted, more, emitted + more);
      Regroup(multiset(emitted), multiset(more), Pending(items, next));
    }
  }

  /** The order is a permutation of the items. */
  lemma MidpointOrderKeepsItems<T>(items: seq<T>)
    ensures multiset(MidpointOrderOf(items)) == multiset(items)
  {
    BisectedEmitsPending(items, Whole(|items|), []);
    SpanIsPrefix(items, |items|);
    assert items[..|items|] == items && Whole(|items|)[..0] == [];
    assert Pending(items, Whole(|items|)) == Span(items, 0, |items|);
  }

  /** The ranges after some rounds, none of the earlier ones empty. */
  ghost predicate Running(n: nat, rounds: nat, ranges: seq<Range>) {
    && Within(ranges, n) && ranges == RangesAfter(Whole(n), rounds)
    && forall k: nat :: k < rounds ==> RangesAfter(Whole(n), k) != []
  }

  lemma RoundsWhenDone(n: nat, rounds: nat)
    requires Running(n, rounds, [])
    ensures rounds == if n == 0 then 1 else Log2(n) + 2
  {
    if n >= 1 {
      RoundsAre(n, rounds);
    } else {
      OneRoundOfNothing(rounds);
    }
  }

  /** _midpoint_order: breadth-first bisection, in floor(log2 n) + 2 rounds. */
  method MidpointOrder<T>(items: seq<T>) returns (result: seq<T>, ghost rounds: nat)
    ensures result == MidpointOrderOf(items)
    ensures rounds == if |items| == 0 then 1 else Log2(|items|) + 2
  {
    result, rounds := [], 0;
    var ranges := Whole(|items|);
    while ranges != []
      invariant Running(|items|, rounds, ranges)
      invariant Bisected(items, ranges, result) == MidpointOrderOf(items)
      decreases Work(ranges)
    {
      RoundReducesWork(ranges);
      RoundKeepsItems(items, ranges);
      var emitted, next := OneRound(items, ranges);
      result, ranges, rounds := result + emitted, next, rounds + 1;
    }
    RoundsWhenDone(|items|, rounds);
  }

  lemma OneRoundOfNothing(rounds: nat)
    requires RangesAfter(Whole(0), rounds) == [] && forall k: nat :: k < rounds ==> RangesAfter(Whole(0), k) != []
    ensures rounds == 1
  {
    assert Whole(0)[..0] == [];
    assert NextRanges(Whole(0)) == [];
    assert RangesAfter(Whole(0), 1) == NextRanges(RangesAfter(Whole(0), 0));
  }

  lemma OneMoreRange<T>(items: seq<T>, ranges: seq<Range>, i: nat)
    requires Within(ranges, |items|) && i < |ranges|
    ensures Within(ranges[..i], |items|) && Within(ranges[..i + 1], |items|) && ranges[i].1 <= |items|
    ensures Midpoints(items, ranges[..i + 1]) == Midpoints(items, ranges[..i]) + MidpointOf(items, ranges[i])
    ensures NextRanges(ranges[..i + 1]) == NextRanges(ranges[..i]) + Halves(ranges[i])
  {
    assert ranges[..i + 1][..i] == ranges[..i] && ranges[i] in ranges;
  }

  /** The body of the for loop over the ranges of one round. */
  method SplitRange<T>(items: seq<T>, r: Range, emitted: seq<T>, next: seq<Range>)
    returns (emitted': seq<T>, next': seq<Range>)
    requires r.1 <= |items|
    ensures emitted' == emitted + MidpointOf(items, r) && next' == next + Halves(r)
  {
    var start, end := r.0, r.1;
    if start >= end {
      return emitted, next;
    }
    var midpoint := (start + end) / 2;
    return emitted + [items[midpoint]], next + [(start, midpoint), (midpoint + 1, end)];
  }

  method OneRound<T>(items: seq<T>, ranges: seq<Range>) returns (emitted: seq<T>, next: seq<Range>)
    requires Within(ranges, |items|)
    ensures emitted == Midpoints(items, ranges) && next == NextRanges(ranges)
  {
    emitted, next := [], [];
    for i := 0 to |ranges|
      invariant Within(ranges[..i], |items|)
      invariant emitted == Midpoints(items, ranges[..i]) && next == NextRanges(ranges[..i])
    {
      OneMoreRange(items, ranges, i);
      emitted, next := SplitRange(items, ranges[i], emitted, next);
    }
    assert ranges[..|ranges|] == ranges;
  }
}
