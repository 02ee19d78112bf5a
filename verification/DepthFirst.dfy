/** Which goal a depth-first search from a stack finds: the end of the first trail, where later hops are
    taken sooner. */
module DepthFirst {
  import opened Ir

  /** A step to an operation, with the rank of the kind of its arc. */
  datatype Hop = Hop(rank: nat, to: Id)

  type Word = seq<Hop>

  predicate HopLess(a: Hop, b: Hop) {
    a.rank < b.rank || (a.rank == b.rank && a.to < b.to)
  }

  function End(w: Word): Id
    requires w != []
  {
    w[|w| - 1].to
  }

  function Front(w: Word): Word
    requires w != []
  {
    w[..|w| - 1]
  }

  /** A start followed by hops. */
  ghost predicate Trail(hops: set<(Id, Hop)>, starts: set<Id>, w: Word) {
    && w != [] && w[0].rank == 0 && w[0].to in starts
    && forall i, j :: 0 <= i && j == i + 1 && j < |w| ==> (w[i].to, w[j]) in hops
  }

  ghost predicate Simple(w: Word) {
    forall i, j :: 0 <= i < j < |w| ==> w[i].to != w[j].to
  }

  ghost predicate SimpleTrail(hops: set<(Id, Hop)>, starts: set<Id>, w: Word) {
    Trail(hops, starts, w) && Simple(w)
  }

  /** Where the words part, a takes the later hop. */
  ghost predicate PartsAt(a: Word, b: Word, k: nat) {
    k < |a| && k < |b| && a[..k] == b[..k] && HopLess(b[k], a[k])
  }

  ghost predicate Parts(a: Word, b: Word) {
    exists k: nat :: PartsAt(a, b, k)
  }

  /** a is taken before b: it is the beginning of b, or parts from it with a later hop. */
  ghost predicate Sooner(a: Word, b: Word) {
    a <= b || Parts(a, b)
  }

  /** w is taken before every other simple trail to a goal. */
  ghost predicate First(hops: set<(Id, Hop)>, starts: set<Id>, goals: set<Id>, w: Word) {
    && SimpleTrail(hops, starts, w) && End(w) in goals
    && forall v :: SimpleTrail(hops, starts, v) && End(v) in goals ==> Sooner(w, v)
  }

  lemma SoonerAntisymmetric(a: Word, b: Word)
    requires Sooner(a, b) && Sooner(b, a)
    ensures a == b
  {
    if Parts(a, b) {
      var k: nat :| PartsAt(a, b, k);
      SameBefore(a, b, k);
      if l: nat :| PartsAt(b, a, l) { SameBefore(b, a, l); }
    }
  }

  lemma SameBefore(a: Word, b: Word, k: nat)
    requires PartsAt(a, b, k)
    ensures forall i :: 0 <= i < k ==> a[i] == b[i]
  {
    assert forall i :: 0 <= i < k ==> a[..k][i] == a[i] && b[..k][i] == b[i];
  }

  /** There is only one first trail. */
  lemma FirstIsUnique(hops: set<(Id, Hop)>, starts: set<Id>, goals: set<Id>, v: Word, w: Word)
    requires First(hops, starts, goals, v) && First(hops, starts, goals, w)
    ensures v == w
  {
    SoonerAntisymmetric(v, w);
  }

  lemma PartsOfLonger(a: Word, b: Word, c: Word)
    requires Parts(a, b) && b <= c
    ensures Parts(a, c)
  {
    var k: nat :| PartsAt(a, b, k);
    assert c[..k] == b[..k];
    assert PartsAt(a, c, k);
  }

  lemma LongerParts(a: Word, b: Word, c: Word)
    requires Parts(a, b) && a <= c
    ensures Parts(c, b)
  {
    var k: nat :| PartsAt(a, b, k);
    assert c[..k] == a[..k];
    assert PartsAt(c, b, k);
  }

  lemma PartsTransitive(a: Word, b: Word, c: Word)
    requires Parts(a, b) && Parts(b, c)
    ensures Parts(a, c)
  {
    var k: nat :| PartsAt(a, b, k);
    var l: nat :| PartsAt(b, c, l);
    if k < l {
      assert b[..l][k] == c[..l][k] && b[..l][..k] == b[..k] && c[..l][..k] == c[..k];
      assert PartsAt(a, c, k);
    } else if l < k {
      assert a[..k][l] == b[..k][l] && a[..k][..l] == a[..l] && b[..k][..l] == b[..l];
      assert PartsAt(a, c, l);
    } else {
      assert PartsAt(a, c, k);
    }
  }

  // ---------- the search ----------

  /** The word by which an operation was put on the stack. */
  ghost predicate Born(hops: set<(Id, Hop)>, starts: set<Id>, seen: map<Id, Word>, w: Word) {
    && Trail(hops, starts, w)
    && (|w| > 1 ==> w[|w| - 2].to in seen && seen[w[|w| - 2].to] == Front(w))
  }

  /** seen[u] is the first simple trail to u, and passes only operations already seen. */
  ghost predicate Settled(hops: set<(Id, Hop)>, starts: set<Id>, seen: map<Id, Word>, u: Id) {
    && u in seen && SimpleTrail(hops, starts, seen[u]) && End(seen[u]) == u
    && (forall k :: 0 <= k < |seen[u]| ==> seen[u][k].to in seen)
    && forall v :: SimpleTrail(hops, starts, v) && End(v) == u ==> Sooner(seen[u], v)
  }

  ghost predicate AllSettled(hops: set<(Id, Hop)>, starts: set<Id>, goals: set<Id>, seen: map<Id, Word>) {
    forall u :: u in seen ==> Settled(hops, starts, seen, u) && u !in goals
  }

  /** Every word waiting was born from what was seen; empty words stand for entries that do not count. */
  ghost predicate AllBorn(hops: set<(Id, Hop)>, starts: set<Id>, seen: map<Id, Word>, words: seq<Word>) {
    forall w :: w in words && w != [] ==> Born(hops, starts, seen, w)
  }

  /** What can be reached next is seen or waits. */
  ghost predicate Waits(hops: set<(Id, Hop)>, starts: set<Id>, seen: map<Id, Word>, words: seq<Word>) {
    && (forall s :: s in starts ==> s in seen || [Hop(0, s)] in words)
    && forall u: Id, h: Hop :: u in seen && (u, h) in hops ==> h.to in seen || seen[u] + [h] in words
  }

  /** Above a word that waits for an unseen operation stand the same word and sooner ones only. */
  ghost predicate Stacked(seen: map<Id, Word>, words: seq<Word>) {
    forall i, j :: 0 <= i < j < |words| && words[i] != [] && words[j] != [] && End(words[i]) !in seen ==>
      words[j] == words[i] || Parts(words[j], words[i])
  }

  ghost predicate Searching(
        hops: set<(Id, Hop)>, starts: set<Id>, goals: set<Id>, seen: map<Id, Word>, words: seq<Word>) {
    && AllSettled(hops, starts, goals, seen) && AllBorn(hops, starts, seen, words)
    && Waits(hops, starts, seen, words) && Stacked(seen, words)
  }

  /** The word on top is simple. */
  lemma TopIsSimple(hops: set<(Id, Hop)>, starts: set<Id>, seen: map<Id, Word>, p: Word)
    requires Born(hops, starts, seen, p) && End(p) !in seen
    requires |p| > 1 ==> Settled(hops, starts, seen, p[|p| - 2].to)
    ensures SimpleTrail(hops, starts, p) && forall k :: 0 <= k < |p| - 1 ==> p[k].to in seen
  {
    if |p| > 1 {
      var u := p[|p| - 2].to;
      assert forall k :: 0 <= k < |p| - 1 ==> p[k] == seen[u][k];
    }
  }

  lemma PrefixOfTrail(hops: set<(Id, Hop)>, starts: set<Id>, v: Word, n: nat)
    requires SimpleTrail(hops, starts, v) && 0 < n <= |v|
    ensures SimpleTrail(hops, starts, v[..n]) && v[..n] <= v && End(v[..n]) == v[n - 1].to
  {}

  /** The word on top is taken before every simple trail that passes an operation not yet seen. */
  lemma TopIsSooner(
        hops: set<(Id, Hop)>, starts: set<Id>, seen: map<Id, Word>, words: seq<Word>, p: Word, v: Word, n: nat)
    requires Waits(hops, starts, seen, words + [p]) && Stacked(seen, words + [p]) && p != []
    requires forall u :: u in seen ==> Settled(hops, starts, seen, u)
    requires SimpleTrail(hops, starts, v) && n < |v| && v[n].to !in seen
    requires forall k :: 0 <= k < n ==> v[k].to in seen
    ensures Sooner(p, v)
  {
    PrefixOfTrail(hops, starts, v, n + 1);
    if n == 0 {
      assert v[..1] == [Hop(0, v[0].to)];
      TopIsSoonerThan(seen, words, p, v[..1]);
      if Parts(p, v[..1]) { PartsOfLonger(p, v[..1], v); }
    } else {
      var u, h := v[n - 1].to, v[n];
      assert (u, h) in hops && v[..n + 1] == v[..n] + [h];
      TopIsSoonerThan(seen, words, p, seen[u] + [h]);
      PrefixOfTrail(hops, starts, v, n);
      assert Settled(hops, starts, seen, u) && Sooner(seen[u], v[..n]);
      StepIsSooner(p, seen[u], v, n);
    }
  }

  /** A word not later than the next step from u is not later than a trail that takes that step. */
  lemma StepIsSooner(p: Word, w: Word, v: Word, n: nat)
    requires 0 < n < |v| && w != [] && Simple(v[..n]) && End(w) == v[n - 1].to && Sooner(w, v[..n])
    requires p == w + [v[n]] || Parts(p, w + [v[n]])
    ensures Sooner(p, v)
  {
    var next := w + [v[n]];
    SameOrParts(w, v[..n]);
    if Parts(w, v[..n]) {
      LongerParts(w, v[..n], next);
      PartsOfLonger(next, v[..n], v);
      if p != next { PartsTransitive(p, next, v); }
    } else {
      assert next == v[..n + 1];
      if p != next { PartsOfLonger(p, next, v); }
    }
  }

  /** A simple trail to u that begins with another trail to u is that trail. */
  lemma SameOrParts(a: Word, b: Word)
    requires a != [] && b != [] && Simple(b) && End(a) == End(b) && Sooner(a, b)
    ensures a == b || Parts(a, b)
  {
    if a <= b { assert b[|a| - 1] == a[|a| - 1]; }
  }

  lemma TopIsSoonerThan(seen: map<Id, Word>, words: seq<Word>, p: Word, w: Word)
    requires Stacked(seen, words + [p]) && p != []
    requires w in words + [p] && w != [] && End(w) !in seen
    ensures p == w || Parts(p, w)
  {
    if w in words {
      var i :| 0 <= i < |words| && words[i] == w;
      assert (words + [p])[i] == w && (words + [p])[|words|] == p;
    }
  }

  lemma FirstUnseen(seen: map<Id, Word>, v: Word) returns (n: nat)
    requires v != [] && End(v) !in seen
    ensures n < |v| && v[n].to !in seen && forall k :: 0 <= k < n ==> v[k].to in seen
  {
    n := 0;
    while v[n].to in seen
      invariant n < |v| && forall k :: 0 <= k < n ==> v[k].to in seen
      decreases |v| - n
    {
      n := n + 1;
    }
  }

  /** A goal on top: its word is the first of all. */
  lemma TopIsFirst(hops: set<(Id, Hop)>, starts: set<Id>, goals: set<Id>, seen: map<Id, Word>, words: seq<Word>,
          p: Word)
    requires Searching(hops, starts, goals, seen, words + [p]) && p != [] && End(p) in goals
    ensures First(hops, starts, goals, p)
  {
    assert p in words + [p];
    TopIsSimple(hops, starts, seen, p);
    forall v | SimpleTrail(hops, starts, v) && End(v) in goals ensures Sooner(p, v) {
      var n := FirstUnseen(seen, v);
      TopIsSooner(hops, starts, seen, words, p, v, n);
    }
  }

  /** The word on top settles its operation. */
  lemma TopIsSettled(
        hops: set<(Id, Hop)>, starts: set<Id>, goals: set<Id>, seen: map<Id, Word>, words: seq<Word>, p: Word)
    requires Searching(hops, starts, goals, seen, words + [p]) && p != [] && End(p) !in seen && End(p) !in goals
    ensures AllSettled(hops, starts, goals, seen[End(p) := p])
  {
    var next := seen[End(p) := p];
    assert p in words + [p];
    TopIsSimple(hops, starts, seen, p);
    forall v | SimpleTrail(hops, starts, v) && End(v) == End(p) ensures Sooner(p, v) {
      var n := FirstUnseen(seen, v);
      TopIsSooner(hops, starts, seen, words, p, v, n);
    }
    assert Settled(hops, starts, next, End(p));
    forall u | u in seen ensures Settled(hops, starts, next, u) {
      assert Settled(hops, starts, seen, u);
    }
  }

  /** The hops of one operation, as words one longer than its own, in ascending order. */
  ghost predicate Fans(hops: set<(Id, Hop)>, p: Word, more: seq<Word>)
    requires p != []
  {
    && (forall w :: w in more && w != [] ==> |w| == |p| + 1 && Front(w) == p && (End(p), w[|p|]) in hops)
    && (forall h: Hop :: (End(p), h) in hops ==> p + [h] in more)
    && forall i, j :: 0 <= i < j < |more| && more[i] != [] && more[j] != [] ==>
         more[j] == more[i] || PartsAt(more[j], more[i], |p|)
  }

  /** Dropping an entry that does not count, or whose operation is seen. */
  lemma PopSeen(hops: set<(Id, Hop)>, starts: set<Id>, goals: set<Id>, seen: map<Id, Word>, words: seq<Word>, p: Word)
    requires Searching(hops, starts, goals, seen, words + [p])
    requires p == [] || End(p) in seen
    ensures Searching(hops, starts, goals, seen, words)
  {
    assert forall i :: 0 <= i < |words| ==> (words + [p])[i] == words[i];
    forall s | s in starts && s !in seen ensures [Hop(0, s)] in words {
      assert End([Hop(0, s)]) == s;
    }
    forall u: Id, h: Hop | u in seen && (u, h) in hops && h.to !in seen ensures seen[u] + [h] in words {
      assert End(seen[u] + [h]) == h.to;
    }
  }

  lemma FanIsBorn(
        hops: set<(Id, Hop)>, starts: set<Id>, seen: map<Id, Word>, words: seq<Word>, p: Word, more: seq<Word>)
    requires AllBorn(hops, starts, seen, words + [p]) && p != [] && End(p) !in seen && Fans(hops, p, more)
    ensures AllBorn(hops, starts, seen[End(p) := p], words + more)
  {
    assert p in words + [p];
    forall w: Word | w in words + more && w != [] ensures Born(hops, starts, seen[End(p) := p], w) {
      if w in words {
        assert w in words + [p];
      } else {
        forall i, j | 0 <= i && j == i + 1 && j < |w| ensures (w[i].to, w[j]) in hops {
          assert Front(w) == p;
          if j < |p| { assert w[i] == p[i] && w[j] == p[j]; }
        }
        assert w[0] == p[0] && w[|p| - 1] == p[|p| - 1];
      }
    }
  }

  lemma FanWaits(
        hops: set<(Id, Hop)>, starts: set<Id>, seen: map<Id, Word>, words: seq<Word>, p: Word, more: seq<Word>)
    requires Waits(hops, starts, seen, words + [p]) && p != [] && End(p) !in seen && Fans(hops, p, more)
    ensures Waits(hops, starts, seen[End(p) := p], words + more)
  {
    var next := seen[End(p) := p];
    forall s | s in starts && s !in next ensures [Hop(0, s)] in words + more {
      assert End([Hop(0, s)]) == s;
    }
    forall u: Id, h: Hop | u in next && (u, h) in hops && h.to !in next ensures next[u] + [h] in words + more {
      if u != End(p) { assert End(seen[u] + [h]) == h.to; }
    }
  }

  lemma FanIsStacked(
        hops: set<(Id, Hop)>, seen: map<Id, Word>, words: seq<Word>, p: Word, more: seq<Word>)
    requires Stacked(seen, words + [p]) && p != [] && Fans(hops, p, more)
    ensures Stacked(seen[End(p) := p], words + more)
  {
    var next, all := seen[End(p) := p], words + more;
    forall i, j | 0 <= i < j < |all| && all[i] != [] && all[j] != [] && End(all[i]) !in next
      ensures all[j] == all[i] || Parts(all[j], all[i])
    {
      if j < |words| {
        assert (words + [p])[i] == all[i] && (words + [p])[j] == all[j];
      } else if i < |words| {
        assert all[j] in more;
        TopIsSoonerThan(seen, words, p, all[i]);
        LongerParts(p, all[i], all[j]);
      } else {
        assert all[i] == more[i - |words|] && all[j] == more[j - |words|];
      }
    }
  }

  /** Expanding the operation on top. */
  lemma PopFan(
        hops: set<(Id, Hop)>, starts: set<Id>, goals: set<Id>, seen: map<Id, Word>, words: seq<Word>, p: Word,
        more: seq<Word>)
    requires Searching(hops, starts, goals, seen, words + [p])
    requires p != [] && End(p) !in seen && End(p) !in goals && Fans(hops, p, more)
    ensures Searching(hops, starts, goals, seen[End(p) := p], words + more)
  {
    TopIsSettled(hops, starts, goals, seen, words, p);
    FanIsBorn(hops, starts, seen, words, p, more);
    FanWaits(hops, starts, seen, words, p, more);
    FanIsStacked(hops, seen, words, p, more);
  }

  /** The starts in ascending order. */
  lemma SearchBegins(hops: set<(Id, Hop)>, starts: set<Id>, goals: set<Id>, ids: seq<Id>, words: seq<Word>)
    requires forall s :: s in starts <==> s in ids
    requires forall i, j :: 0 <= i < j < |ids| ==> ids[i] <= ids[j]
    requires |words| == |ids| && forall i :: 0 <= i < |ids| ==> words[i] == [Hop(0, ids[i])]
    ensures Searching(hops, starts, goals, map[], words)
  {
    var none: map<Id, Word> := map[];
    forall s: Id | s in starts ensures [Hop(0, s)] in words {
      var i :| 0 <= i < |ids| && ids[i] == s;
      assert words[i] in words;
    }
    forall w: Word | w in words ensures Born(hops, starts, none, w) {
      var i :| 0 <= i < |words| && words[i] == w;
      assert ids[i] in ids;
    }
    forall i, j | 0 <= i < j < |words| ensures words[j] == words[i] || Parts(words[j], words[i]) {
      if ids[i] < ids[j] { assert PartsAt(words[j], words[i], 0); }
    }
  }
}
