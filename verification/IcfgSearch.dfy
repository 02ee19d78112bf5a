/** Why breadth-first search over (operation, call stack) states finds shortest runs. */
module IcfgSearch {
  import opened Sequences
  import opened Ir
  import opened ControlFlow
  import opened IcfgRuns
  import Shortlex

  /** One queue entry: the state and the path that led to it. */
  datatype Entry = Entry(config: Config, operationPath: seq<Id>, arcPath: seq<ArcKind>)

  ghost function OpsOf(cs: seq<Config>): (ids: seq<Id>)
    ensures |ids| == |cs| && forall i :: 0 <= i < |cs| ==> ids[i] == cs[i].op
  {
    seq(|cs|, i requires 0 <= i < |cs| => cs[i].op)
  }

  ghost function KindsOf(arcs: seq<Jump>): (kinds: seq<ArcKind>)
    ensures |kinds| == |arcs| && forall i :: 0 <= i < |arcs| ==> kinds[i] == arcs[i].kind
  {
    seq(|arcs|, i requires 0 <= i < |arcs| => arcs[i].kind)
  }

  // ---------- the order of arc words ----------

  function ArcKindRank(kind: ArcKind): nat {
    match kind
    case CallEnter => 0
    case CallReturn => 1
    case CtrlFlow => 2
    case EmbeddedCall => 3
    case FunctionEntry => 4
  }

  /** The order of the sort key (target_id, kind.value, call_id). */
  predicate JumpLeq(a: Jump, b: Jump) {
    || a.target < b.target
    || (a.target == b.target &&
        (ArcKindRank(a.kind) < ArcKindRank(b.kind) ||
         (ArcKindRank(a.kind) == ArcKindRank(b.kind) && a.callId <= b.callId)))
  }

  /** The sort keys of an arc word, one after the other. */
  ghost function Key(word: seq<Jump>): (key: seq<nat>)
    ensures |key| == 3 * |word|
    decreases |word|
  {
    if word == [] then []
    else
      var a := word[|word| - 1];
      Key(word[..|word| - 1]) + [a.target] + [ArcKindRank(a.kind)] + [a.callId]
  }

  /** Shorter words first, words of one length by the first arc in which they differ. */
  ghost predicate Leq(u: seq<Jump>, v: seq<Jump>) {
    Shortlex.AtMost(Key(u), Key(v))
  }

  ghost predicate Before(u: seq<Jump>, v: seq<Jump>) {
    Shortlex.Less(Key(u), Key(v))
  }

  lemma LeqTransitive(u: seq<Jump>, v: seq<Jump>, w: seq<Jump>)
    requires Leq(u, v) && Leq(v, w)
    ensures Leq(u, w)
  {
    Shortlex.Transitive(Key(u), Key(v), Key(w));
  }

  lemma KeySnoc(u: seq<Jump>, a: Jump)
    ensures Key(u + [a]) == Key(u) + [a.target] + [ArcKindRank(a.kind)] + [a.callId]
  {
    assert (u + [a])[..|u|] == u;
  }

  lemma LeqAppending(u: seq<Jump>, a: Jump, v: seq<Jump>, b: Jump)
    requires Leq(u, v) && (Before(u, v) || JumpLeq(a, b))
    ensures Leq(u + [a], v + [b])
  {
    KeySnoc(u, a);
    KeySnoc(v, b);
    var p, q := Key(u), Key(v);
    Shortlex.Appending(p, a.target, q, b.target);
    Shortlex.Appending(p + [a.target], ArcKindRank(a.kind), q + [b.target], ArcKindRank(b.kind));
    Shortlex.Appending(p + [a.target] + [ArcKindRank(a.kind)], a.callId, q + [b.target] + [ArcKindRank(b.kind)],
      b.callId);
  }

  /** From one operation the key determines the arcs. */
  lemma {:induction false} KeyDetermines(g: View, depth: nat, source: Id, cs: seq<Config>, u: seq<Jump>,
          ds: seq<Config>, v: seq<Jump>)
    requires RunFrom(g, depth, source, cs, u) && RunFrom(g, depth, source, ds, v) && Key(u) == Key(v)
    ensures u == v && cs == ds
    decreases |u|
  {
    assert |u| == |v|;
    if u != [] {
      var n := |u| - 1;
      PrefixRun(g, depth, cs, u, n);
      PrefixRun(g, depth, ds, v, n);
      KeyTail(u, v);
      KeyDetermines(g, depth, source, cs[..n + 1], u[..n], ds[..n + 1], v[..n]);
      assert cs[n] == cs[..n + 1][n] == ds[..n + 1][n] == ds[n];
      OneStep(g, depth, cs[n], u[n], cs[n + 1], v[n], ds[n + 1]);
      assert u == u[..n] + [u[n]] && v == v[..n] + [v[n]];
      assert cs == cs[..n + 1] + [cs[n + 1]] && ds == ds[..n + 1] + [ds[n + 1]];
    }
  }

  lemma OneStep(g: View, depth: nat, c: Config, a: Jump, d: Config, b: Jump, e: Config)
    requires Step(g, depth, c, a, d) && Step(g, depth, c, b, e)
    requires a.target == b.target && a.kind == b.kind && a.callId == b.callId
    ensures a == b && d == e
  {}

  lemma KeyLast(u: seq<Jump>)
    requires u != []
    ensures var n := |u| - 1;
            Key(u) == Key(u[..n]) + [u[n].target] + [ArcKindRank(u[n].kind)] + [u[n].callId]
  {}

  lemma KeyTail(u: seq<Jump>, v: seq<Jump>)
    requires Key(u) == Key(v) && u != []
    ensures |u| == |v| && Key(u[..|u| - 1]) == Key(v[..|v| - 1])
    ensures var a, b := u[|u| - 1], v[|v| - 1]; a.target == b.target && a.kind == b.kind && a.callId == b.callId
  {
    var n := |u| - 1;
    KeyLast(u);
    KeyLast(v);
    LastThree(Key(u[..n]), u[n].target, ArcKindRank(u[n].kind), u[n].callId,
              Key(v[..n]), v[n].target, ArcKindRank(v[n].kind), v[n].callId);
  }

  lemma LastThree(p: seq<nat>, x: nat, y: nat, z: nat, q: seq<nat>, x': nat, y': nat, z': nat)
    requires |p| == |q| && p + [x] + [y] + [z] == q + [x'] + [y'] + [z']
    ensures p == q && x == x' && y == y' && z == z'
  {
    var s, t, n := p + [x] + [y] + [z], q + [x'] + [y'] + [z'], |p|;
    assert p == s[..n] && q == t[..n];
    assert s[n] == x && s[n + 1] == y && s[n + 2] == z && t[n] == x' && t[n + 1] == y' && t[n + 2] == z';
  }

  // ---------- traces ----------

  /** The recorded path is the trace of the run along the word, to the entry's state. */
  ghost predicate Traces(g: View, depth: nat, source: Id, e: Entry, word: seq<Jump>) {
    exists cs :: TracedBy(g, depth, source, e, cs, word)
  }

  ghost predicate TracedBy(g: View, depth: nat, source: Id, e: Entry, cs: seq<Config>, arcs: seq<Jump>) {
    && RunFrom(g, depth, source, cs, arcs)
    && cs[|cs| - 1] == e.config
    && e.operationPath == OpsOf(cs) && e.arcPath == KindsOf(arcs)
  }

  /** The word leads to the state. */
  ghost predicate LeadsTo(g: View, depth: nat, source: Id, word: seq<Jump>, c: Config) {
    exists cs :: RunFrom(g, depth, source, cs, word) && cs[|cs| - 1] == c
  }

  lemma TracedLeads(g: View, depth: nat, source: Id, e: Entry, word: seq<Jump>)
    requires Traces(g, depth, source, e, word)
    ensures LeadsTo(g, depth, source, word, e.config) && |e.arcPath| == |word|
  {
    var cs :| TracedBy(g, depth, source, e, cs, word);
  }

  lemma SameKeySameState(g: View, depth: nat, source: Id, u: seq<Jump>, c: Config, v: seq<Jump>, d: Config)
    requires LeadsTo(g, depth, source, u, c) && LeadsTo(g, depth, source, v, d) && Key(u) == Key(v)
    ensures u == v && c == d
  {
    var cs :| RunFrom(g, depth, source, cs, u) && cs[|cs| - 1] == c;
    var ds :| RunFrom(g, depth, source, ds, v) && ds[|ds| - 1] == d;
    KeyDetermines(g, depth, source, cs, u, ds, v);
  }

  function Extend(e: Entry, a: Jump, stack: seq<Frame>): Entry {
    Entry(Config(a.target, stack), e.operationPath + [a.target], e.arcPath + [a.kind])
  }

  lemma InitialTraces(g: View, depth: nat, source: Id)
    ensures Traces(g, depth, source, Entry(Config(source, []), [source], []), [])
  {
    var e := Entry(Config(source, []), [source], []);
    assert TracedBy(g, depth, source, e, [Config(source, [])], []);
  }

  lemma ExtendTraces(g: View, depth: nat, source: Id, e: Entry, word: seq<Jump>, a: Jump, stack: seq<Frame>)
    requires Traces(g, depth, source, e, word) && Step(g, depth, e.config, a, Config(a.target, stack))
    ensures Traces(g, depth, source, Extend(e, a, stack), word + [a])
  {
    var cs :| TracedBy(g, depth, source, e, cs, word);
    var d := Config(a.target, stack);
    assert IsRun(g, depth, cs + [d], word + [a]);
    assert OpsOf(cs + [d]) == OpsOf(cs) + [a.target];
    assert KindsOf(word + [a]) == KindsOf(word) + [a.kind];
    assert TracedBy(g, depth, source, Extend(e, a, stack), cs + [d], word + [a]);
  }

  // ---------- what the search counts ----------

  ghost predicate ReachedState(g: View, depth: nat, source: Id, c: Config) {
    exists cs, arcs :: RunFrom(g, depth, source, cs, arcs) && cs[|cs| - 1] == c
  }

  /** A state and a place in the successor list of its operation. */
  type Transition = (Config, int)

  /** The state is reached by a run, and the arc at that place may be followed from it. */
  ghost predicate IsTransition(g: View, succ: map<Id, seq<Jump>>, depth: nat, source: Id, t: Transition) {
    && ReachedState(g, depth, source, t.0) && 0 <= t.1 < |Lookup(succ, t.0.op)|
    && exists d :: Step(g, depth, t.0, Lookup(succ, t.0.op)[t.1], d)
  }

  ghost predicate AllTransitions(g: View, succ: map<Id, seq<Jump>>, depth: nat, source: Id, ts: set<Transition>) {
    forall t :: t in ts ==> IsTransition(g, succ, depth, source, t)
  }

  /** There are at least n distinct transitions from states that runs reach. */
  ghost predicate AtLeastTransitions(g: View, succ: map<Id, seq<Jump>>, depth: nat, source: Id, n: nat) {
    exists ts :: AllTransitions(g, succ, depth, source, ts) && |ts| == n
  }

  /** all holds every transition from the states that runs reach. */
  ghost predicate CoversTransitions(g: View, succ: map<Id, seq<Jump>>, depth: nat, source: Id, all: set<Transition>) {
    forall t :: IsTransition(g, succ, depth, source, t) ==> t in all
  }

  lemma FewTransitions(g: View, succ: map<Id, seq<Jump>>, depth: nat, source: Id, n: nat, all: set<Transition>)
    requires AtLeastTransitions(g, succ, depth, source, n) && CoversTransitions(g, succ, depth, source, all)
    ensures n <= |all|
  {
    var ts :| AllTransitions(g, succ, depth, source, ts) && |ts| == n;
    assert ts <= all;
    SubsetIsSmaller(ts, all);
  }

  lemma SubsetIsSmaller<T>(a: set<T>, b: set<T>)
    requires a <= b
    ensures |a| <= |b|
  {
    assert b == a + (b - a);
  }

  // ---------- the frontier invariant ----------

  /** c waits in the queue, with a word that is at most v. */
  ghost predicate Pending(queue: seq<Entry>, words: seq<seq<Jump>>, c: Config, v: seq<Jump>)
    requires |words| == |queue|
  {
    exists i :: 0 <= i < |queue| && queue[i].config == c && Leq(words[i], v)
  }

  /** c has been expanded, or waits in the queue, with a word that is at most v. */
  ghost predicate Known(best: map<Config, seq<Jump>>, queue: seq<Entry>, words: seq<seq<Jump>>, c: Config, v: seq<Jump>)
    requires |words| == |queue|
  {
    (c in best && Leq(best[c], v)) || Pending(queue, words, c, v)
  }

  ghost predicate Expanded(
        g: View, depth: nat, target: Id, best: map<Config, seq<Jump>>, queue: seq<Entry>, words: seq<seq<Jump>>,
        c: Config)
    requires c in best && |words| == |queue|
  {
    forall a, d :: Step(g, depth, c, a, d) ==> d.op != target && Known(best, queue, words, d, best[c] + [a])
  }

  /** Everything expanded, except possibly one state, has all its successors known. */
  ghost predicate Frontier(
        g: View, depth: nat, source: Id, target: Id, best: map<Config, seq<Jump>>, queue: seq<Entry>,
        words: seq<seq<Jump>>, except: set<Config>)
    requires |words| == |queue|
  {
    && Known(best, queue, words, Config(source, []), [])
    && (forall c :: c in best && c !in except ==> Expanded(g, depth, target, best, queue, words, c))
  }

  /** Every waiting word other than the empty one extends the word of an expanded state. */
  ghost predicate Born(best: map<Config, seq<Jump>>, word: seq<Jump>) {
    word != [] ==> exists p :: p in best && best[p] == word[..|word| - 1]
  }

  /** Words wait in order, after those of the expanded states. */
  ghost predicate Ordered(best: map<Config, seq<Jump>>, words: seq<seq<Jump>>) {
    InOrder(words) && Behind(best, words) && AllBorn(best, words)
  }

  ghost predicate InOrder(words: seq<seq<Jump>>) {
    forall i, j :: 0 <= i < j < |words| ==> Leq(words[i], words[j])
  }

  ghost predicate Behind(best: map<Config, seq<Jump>>, words: seq<seq<Jump>>) {
    forall c, w :: c in best && w in words ==> Leq(best[c], w)
  }

  ghost predicate AllBorn(best: map<Config, seq<Jump>>, words: seq<seq<Jump>>) {
    forall w :: w in words ==> Born(best, w)
  }

  /** The words are those of the states. */
  ghost predicate Led(
        g: View, depth: nat, source: Id, target: Id, best: map<Config, seq<Jump>>, queue: seq<Entry>,
        words: seq<seq<Jump>>)
    requires |words| == |queue|
  {
    && (forall c :: c in best ==> LeadsTo(g, depth, source, best[c], c))
    && (forall i :: 0 <= i < |queue| ==> queue[i].config.op != target && Traces(g, depth, source, queue[i], words[i]))
  }

  /** The loop invariant as a whole. */
  ghost predicate Searching(
        g: View, depth: nat, source: Id, target: Id, best: map<Config, seq<Jump>>, queue: seq<Entry>,
        words: seq<seq<Jump>>, except: set<Config>) {
    && |words| == |queue| && TargetUnexpanded(best, target)
    && Frontier(g, depth, source, target, best, queue, words, except)
    && Ordered(best, words) && Led(g, depth, source, target, best, queue, words)
  }

  lemma InitialFrontier(g: View, depth: nat, source: Id, target: Id)
    requires source != target
    ensures Searching(g, depth, source, target, map[], [Entry(Config(source, []), [source], [])], [[]], {})
  {
    InitialTraces(g, depth, source);
    var queue: seq<Entry>, words: seq<seq<Jump>> := [Entry(Config(source, []), [source], [])], [[]];
    assert queue[0].config == Config(source, []) && Leq(words[0], []);
  }

  // ---------- what the frontier bounds ----------

  /** Along any run, either the state is expanded with a word at most that of the run so far, or some
      earlier state waits with one. */
  lemma {:induction false} RunMeetsFrontier(
        g: View, depth: nat, source: Id, target: Id, best: map<Config, seq<Jump>>, queue: seq<Entry>,
        words: seq<seq<Jump>>, cs: seq<Config>, arcs: seq<Jump>, n: nat)
    requires |words| == |queue| && Frontier(g, depth, source, target, best, queue, words, {})
    requires RunFrom(g, depth, source, cs, arcs) && n < |cs|
    ensures (cs[n] in best && Leq(best[cs[n]], arcs[..n])) ||
            exists j :: 0 <= j <= n && Pending(queue, words, cs[j], arcs[..j])
  {
    if n == 0 {
      assert arcs[..0] == [];
    } else {
      RunMeetsFrontier(g, depth, source, target, best, queue, words, cs, arcs, n - 1);
      var c := cs[n - 1];
      if c in best && Leq(best[c], arcs[..n - 1]) {
        assert Step(g, depth, c, arcs[n - 1], cs[n]);
        assert Expanded(g, depth, target, best, queue, words, c);
        assert JumpLeq(arcs[n - 1], arcs[n - 1]);
        LeqAppending(best[c], arcs[n - 1], arcs[..n - 1], arcs[n - 1]);
        assert arcs[..n - 1] + [arcs[n - 1]] == arcs[..n];
        KnownLater(best, queue, words, cs[n], best[c] + [arcs[n - 1]], arcs[..n]);
      }
    }
  }

  lemma KnownLater(
        best: map<Config, seq<Jump>>, queue: seq<Entry>, words: seq<seq<Jump>>, c: Config, u: seq<Jump>, v: seq<Jump>)
    requires |words| == |queue| && Known(best, queue, words, c, u) && Leq(u, v)
    ensures Known(best, queue, words, c, v)
  {
    if c in best && Leq(best[c], u) {
      LeqTransitive(best[c], u, v);
    } else {
      var i :| 0 <= i < |queue| && queue[i].config == c && Leq(words[i], u);
      LeqTransitive(words[i], u, v);
    }
  }

  /** Any run to the target passes a waiting state with a word that is at most that of the run so far. */
  lemma FrontierBoundsRuns(
        g: View, depth: nat, source: Id, target: Id, best: map<Config, seq<Jump>>, queue: seq<Entry>,
        words: seq<seq<Jump>>, cs: seq<Config>, arcs: seq<Jump>)
    returns (i: nat, j: nat)
    requires Searching(g, depth, source, target, best, queue, words, {})
    requires RunTo(g, depth, source, target, cs, arcs)
    ensures i < |queue| && j < |arcs| && queue[i].config == cs[j] && Leq(words[i], arcs[..j])
  {
    RunMeetsFrontier(g, depth, source, target, best, queue, words, cs, arcs, |arcs|);
    j :| 0 <= j <= |arcs| && Pending(queue, words, cs[j], arcs[..j]);
    i :| 0 <= i < |queue| && queue[i].config == cs[j] && Leq(words[i], arcs[..j]);
  }

  ghost predicate TargetUnexpanded(best: map<Config, seq<Jump>>, target: Id) {
    forall c :: c in best ==> c.op != target
  }

  /** An arc from the head of the queue to the target, the first in order, completes a run whose arcs
      are the least among all runs to the target. */
  lemma HeadCompletesLeastRun(
        g: View, depth: nat, source: Id, target: Id, best: map<Config, seq<Jump>>, queue: seq<Entry>,
        words: seq<seq<Jump>>, a: Jump, cs: seq<Config>, arcs: seq<Jump>)
    requires Searching(g, depth, source, target, best, queue, words, {}) && queue != []
    requires forall b, d :: Step(g, depth, queue[0].config, b, d) && d.op == target ==> JumpLeq(a, b)
    requires RunTo(g, depth, source, target, cs, arcs)
    ensures Leq(words[0] + [a], arcs)
  {
    var i, j := FrontierBoundsRuns(g, depth, source, target, best, queue, words, cs, arcs);
    if i > 0 { LeqTransitive(words[0], words[i], arcs[..j]); }
    if j < |arcs| - 1 {
      assert |Key(words[0])| <= |Key(arcs[..j])|;
    } else {
      assert arcs == arcs[..j] + [arcs[j]] && Step(g, depth, cs[j], arcs[j], cs[j + 1]);
      if !Before(words[0], arcs[..j]) {
        HeadIsTheState(g, depth, source, queue[0], words[0], cs, arcs, j);
      }
      LeqAppending(words[0], a, arcs[..j], arcs[j]);
    }
  }

  lemma HeadIsTheState(
        g: View, depth: nat, source: Id, e: Entry, word: seq<Jump>, cs: seq<Config>, arcs: seq<Jump>, j: nat)
    requires Traces(g, depth, source, e, word) && RunFrom(g, depth, source, cs, arcs) && j <= |arcs|
    requires Leq(word, arcs[..j]) && !Before(word, arcs[..j])
    ensures e.config == cs[j]
  {
    TracedLeads(g, depth, source, e, word);
    PrefixRun(g, depth, cs, arcs, j);
    assert LeadsTo(g, depth, source, arcs[..j], cs[j]) by { assert cs[..j + 1][j] == cs[j]; }
    SameKeySameState(g, depth, source, word, e.config, arcs[..j], cs[j]);
  }

  // ---------- popping ----------

  lemma PopKnown(
        best: map<Config, seq<Jump>>, queue: seq<Entry>, words: seq<seq<Jump>>, c: Config, v: seq<Jump>,
        best': map<Config, seq<Jump>>)
    requires queue != [] && |words| == |queue| && Known(best, queue, words, c, v)
    requires forall x :: x in best ==> x in best' && best'[x] == best[x]
    requires queue[0].config in best' && Leq(best'[queue[0].config], words[0])
    ensures Known(best', queue[1..], words[1..], c, v)
  {
    if !(c in best && Leq(best[c], v)) {
      var i :| 0 <= i < |queue| && queue[i].config == c && Leq(words[i], v);
      if i == 0 {
        LeqTransitive(best'[c], words[0], v);
      } else {
        assert queue[1..][i - 1] == queue[i] && words[1..][i - 1] == words[i];
      }
    }
  }

  /** Popping an entry loses nothing, once its state counts as expanded. */
  lemma PopKeepsFrontier(
        g: View, depth: nat, source: Id, target: Id, best: map<Config, seq<Jump>>, queue: seq<Entry>,
        words: seq<seq<Jump>>, best': map<Config, seq<Jump>>, except: set<Config>)
    requires queue != [] && |words| == |queue| && Frontier(g, depth, source, target, best, queue, words, {})
    requires forall x :: x in best ==> x in best' && best'[x] == best[x]
    requires best'.Keys == best.Keys + {queue[0].config} && best'.Keys - best.Keys <= except
    requires Leq(best'[queue[0].config], words[0])
    ensures Frontier(g, depth, source, target, best', queue[1..], words[1..], except)
  {
    PopKnown(best, queue, words, Config(source, []), [], best');
    forall c | c in best' && c !in except ensures Expanded(g, depth, target, best', queue[1..], words[1..], c) {
      assert c in best && Expanded(g, depth, target, best, queue, words, c);
      forall a, d | Step(g, depth, c, a, d)
        ensures d.op != target && Known(best', queue[1..], words[1..], d, best'[c] + [a])
      {
        PopKnown(best, queue, words, d, best[c] + [a], best');
      }
    }
  }

  /** The head's state was expanded before. */
  lemma PopSearching(
        g: View, depth: nat, source: Id, target: Id, best: map<Config, seq<Jump>>, queue: seq<Entry>,
        words: seq<seq<Jump>>)
    requires queue != [] && Searching(g, depth, source, target, best, queue, words, {}) && queue[0].config in best
    ensures Searching(g, depth, source, target, best, queue[1..], words[1..], {})
  {
    assert words[0] in words;
    PopKeepsFrontier(g, depth, source, target, best, queue, words, best, {});
    PopKeepsOrder(best, words);
    PopKeepsLed(g, depth, source, target, best, queue, words);
  }

  lemma PopKeepsOrder(best: map<Config, seq<Jump>>, words: seq<seq<Jump>>)
    requires words != [] && Ordered(best, words)
    ensures Ordered(best, words[1..])
  {
    assert forall w :: w in words[1..] ==> w in words;
    forall i, j | 0 <= i < j < |words[1..]| ensures Leq(words[1..][i], words[1..][j]) {
      assert Leq(words[i + 1], words[j + 1]);
    }
  }

  lemma PopKeepsLed(
        g: View, depth: nat, source: Id, target: Id, best: map<Config, seq<Jump>>, queue: seq<Entry>,
        words: seq<seq<Jump>>)
    requires queue != [] && |words| == |queue| && Led(g, depth, source, target, best, queue, words)
    ensures Led(g, depth, source, target, best, queue[1..], words[1..])
  {
    forall i | 0 <= i < |queue[1..]|
      ensures queue[1..][i].config.op != target && Traces(g, depth, source, queue[1..][i], words[1..][i])
    {
      assert queue[1..][i] == queue[i + 1] && words[1..][i] == words[i + 1];
    }
  }

  // ---------- pushing ----------

  /** The words of the successors reached along the arcs. */
  ghost function Extended(word: seq<Jump>, jumps: seq<Jump>): (words: seq<seq<Jump>>)
    ensures |words| == |jumps| && forall k :: 0 <= k < |words| ==> words[k] == word + [jumps[k]]
  {
    seq(|jumps|, k requires 0 <= k < |jumps| => word + [jumps[k]])
  }

  /** Entries one arc further than the word, in the order of the arcs, none of them at the target. */
  ghost predicate Discovered(
        g: View, depth: nat, source: Id, target: Id, word: seq<Jump>, more: seq<Entry>, jumps: seq<Jump>) {
    && |more| == |jumps|
    && (forall k :: 0 <= k < |more| ==>
          more[k].config.op != target && Traces(g, depth, source, more[k], word + [jumps[k]]))
    && forall k, l :: 0 <= k < l < |jumps| ==> JumpLeq(jumps[k], jumps[l])
  }

  ghost predicate Listed(more: seq<Entry>, jumps: seq<Jump>, d: Config, a: Jump) {
    exists k :: 0 <= k < |more| && k < |jumps| && more[k].config == d && jumps[k] == a
  }

  lemma ListedOneMore(more: seq<Entry>, jumps: seq<Jump>, e: Entry, b: Jump)
    requires |more| == |jumps|
    ensures Listed(more + [e], jumps + [b], e.config, b)
    ensures forall d, a :: Listed(more, jumps, d, a) ==> Listed(more + [e], jumps + [b], d, a)
  {
    assert (more + [e])[|more|] == e && (jumps + [b])[|more|] == b;
    forall d, a | Listed(more, jumps, d, a) ensures Listed(more + [e], jumps + [b], d, a) {
      var i :| 0 <= i < |more| && i < |jumps| && more[i].config == d && jumps[i] == a;
      assert (more + [e])[i].config == d && (jumps + [b])[i] == a;
    }
  }

  /** No step from the state reaches the target, and each leads to a listed entry. */
  ghost predicate AllListed(g: View, depth: nat, target: Id, c: Config, more: seq<Entry>, jumps: seq<Jump>) {
    forall a, d :: Step(g, depth, c, a, d) ==> d.op != target && Listed(more, jumps, d, a)
  }

  lemma PushKnown(
        best: map<Config, seq<Jump>>, queue: seq<Entry>, words: seq<seq<Jump>>, c: Config, v: seq<Jump>,
        more: seq<Entry>, new_: seq<seq<Jump>>)
    requires |words| == |queue| && |new_| == |more| && Known(best, queue, words, c, v)
    ensures Known(best, queue + more, words + new_, c, v)
  {
    if !(c in best && Leq(best[c], v)) {
      var i :| 0 <= i < |queue| && queue[i].config == c && Leq(words[i], v);
      assert (queue + more)[i] == queue[i] && (words + new_)[i] == words[i];
    }
  }

  lemma ListedIsKnown(
        best: map<Config, seq<Jump>>, queue: seq<Entry>, words: seq<seq<Jump>>, word: seq<Jump>, more: seq<Entry>,
        jumps: seq<Jump>, d: Config, a: Jump)
    requires |words| == |queue| && |more| == |jumps| && Listed(more, jumps, d, a)
    ensures Known(best, queue + more, words + Extended(word, jumps), d, word + [a])
  {
    var k :| 0 <= k < |more| && k < |jumps| && more[k].config == d && jumps[k] == a;
    var i := |queue| + k;
    assert (queue + more)[i] == more[k] && (words + Extended(word, jumps))[i] == word + [a];
  }

  /** Appending all successors of the exception restores the frontier. */
  lemma PushKeepsFrontier(
        g: View, depth: nat, source: Id, target: Id, best: map<Config, seq<Jump>>, queue: seq<Entry>,
        words: seq<seq<Jump>>, c: Config, more: seq<Entry>, jumps: seq<Jump>)
    requires |words| == |queue| && Frontier(g, depth, source, target, best, queue, words, {c})
    requires c in best && |more| == |jumps| && AllListed(g, depth, target, c, more, jumps)
    ensures Frontier(g, depth, source, target, best, queue + more, words + Extended(best[c], jumps), {})
  {
    var new_ := Extended(best[c], jumps);
    PushKnown(best, queue, words, Config(source, []), [], more, new_);
    forall b | b in best ensures Expanded(g, depth, target, best, queue + more, words + new_, b) {
      forall a, d | Step(g, depth, b, a, d)
        ensures d.op != target && Known(best, queue + more, words + new_, d, best[b] + [a])
      {
        if b == c {
          ListedIsKnown(best, queue, words, best[c], more, jumps, d, a);
        } else {
          assert Expanded(g, depth, target, best, queue, words, b);
          PushKnown(best, queue, words, d, best[b] + [a], more, new_);
        }
      }
    }
  }

  /** What waits comes before what the head's state leads to. */
  lemma WaitingComesFirst(
        g: View, depth: nat, source: Id, best: map<Config, seq<Jump>>, w: seq<Jump>, v: seq<Jump>, d: Config, a: Jump)
    requires Born(best, w) && LeadsTo(g, depth, source, v, d) && d !in best
    requires forall c :: c in best ==> LeadsTo(g, depth, source, best[c], c) && Leq(best[c], v)
    ensures Leq(w, v + [a])
  {
    if w != [] {
      var p :| p in best && best[p] == w[..|w| - 1];
      assert w == best[p] + [w[|w| - 1]];
      ChildrenInOrder(g, depth, source, best[p], p, w[|w| - 1], v, d, a);
    }
  }

  /** Words that lead to different states stay in order however they go on. */
  lemma ChildrenInOrder(
        g: View, depth: nat, source: Id, u: seq<Jump>, c: Config, a: Jump, v: seq<Jump>, d: Config, b: Jump)
    requires LeadsTo(g, depth, source, u, c) && LeadsTo(g, depth, source, v, d) && c != d && Leq(u, v)
    ensures Leq(u + [a], v + [b])
  {
    if !Before(u, v) {
      SameKeySameState(g, depth, source, u, c, v, d);
    } else {
      LeqAppending(u, a, v, b);
    }
  }

  /** The words waiting once the head is replaced by its successors. */
  ghost function Replaced(words: seq<seq<Jump>>, jumps: seq<Jump>): seq<seq<Jump>>
    requires words != []
  {
    words[1..] + Extended(words[0], jumps)
  }

  lemma PushKeepsSorted(words: seq<seq<Jump>>, jumps: seq<Jump>)
    requires words != [] && InOrder(words) && forall k, l :: 0 <= k < l < |jumps| ==> JumpLeq(jumps[k], jumps[l])
    requires forall w, a :: w in words[1..] && a in jumps ==> Leq(w, words[0] + [a])
    ensures InOrder(Replaced(words, jumps))
  {
    var all, n := Replaced(words, jumps), |words| - 1;
    forall i, j | 0 <= i < j < |all| ensures Leq(all[i], all[j]) {
      if j < n {
        assert all[i] == words[i + 1] && all[j] == words[j + 1] && Leq(words[i + 1], words[j + 1]);
      } else if i < n {
        assert all[i] == words[1..][i] && all[j] == words[0] + [jumps[j - n]];
        assert words[1..][i] in words[1..] && jumps[j - n] in jumps;
      } else {
        assert all[i] == words[0] + [jumps[i - n]] && all[j] == words[0] + [jumps[j - n]];
        LeqAppending(words[0], jumps[i - n], words[0], jumps[j - n]);
      }
    }
  }

  lemma AllComeFirst(
        g: View, depth: nat, source: Id, target: Id, best: map<Config, seq<Jump>>, queue: seq<Entry>,
        words: seq<seq<Jump>>, w: seq<Jump>, a: Jump)
    requires |words| == |queue| > 0 && Ordered(best, words) && Led(g, depth, source, target, best, queue, words)
    requires queue[0].config !in best && w in words
    ensures Leq(w, words[0] + [a])
  {
    TracedLeads(g, depth, source, queue[0], words[0]);
    assert words[0] in words;
    WaitingComesFirst(g, depth, source, best, w, words[0], queue[0].config, a);
  }

  lemma InReplaced(words: seq<seq<Jump>>, jumps: seq<Jump>, w: seq<Jump>)
    requires words != [] && w in Replaced(words, jumps)
    ensures w in words || exists k :: 0 <= k < |jumps| && w == words[0] + [jumps[k]]
  {
    if w !in words[1..] {
      var k :| 0 <= k < |Extended(words[0], jumps)| && Extended(words[0], jumps)[k] == w;
    }
  }

  lemma PushKeepsBehind(
        best: map<Config, seq<Jump>>, words: seq<seq<Jump>>, jumps: seq<Jump>, c: Config,
        later: map<Config, seq<Jump>>)
    requires words != [] && InOrder(words) && Behind(best, words) && later == best[c := words[0]]
    ensures Behind(later, Replaced(words, jumps))
  {
    forall b, w | b in later && w in Replaced(words, jumps) ensures Leq(later[b], w) {
      InReplaced(words, jumps, w);
      if w in words {
        var i :| 0 <= i < |words| && words[i] == w;
        assert i > 0 ==> Leq(words[0], words[i]);
      } else {
        var k :| 0 <= k < |jumps| && w == words[0] + [jumps[k]];
        LongerIsLater(words[0], jumps[k]);
        if b != c {
          assert words[0] in words;
          LeqTransitive(best[b], words[0], w);
        }
      }
    }
  }

  lemma LongerIsLater(u: seq<Jump>, a: Jump)
    ensures Leq(u, u + [a])
  {
    assert |Key(u)| < |Key(u + [a])|;
  }

  lemma PushKeepsBorn(
        best: map<Config, seq<Jump>>, words: seq<seq<Jump>>, jumps: seq<Jump>, c: Config,
        later: map<Config, seq<Jump>>)
    requires words != [] && AllBorn(best, words) && c !in best && later == best[c := words[0]]
    ensures AllBorn(later, Replaced(words, jumps))
  {
    forall w | w in Replaced(words, jumps) ensures Born(later, w) {
      InReplaced(words, jumps, w);
      if w in words {
        if w != [] {
          var p :| p in best && best[p] == w[..|w| - 1];
          assert p in later && later[p] == best[p];
        }
      } else {
        var k :| 0 <= k < |jumps| && w == words[0] + [jumps[k]];
        assert w[..|w| - 1] == words[0] && c in later && later[c] == words[0];
      }
    }
  }

  lemma PushKeepsLed(
        g: View, depth: nat, source: Id, target: Id, best: map<Config, seq<Jump>>, queue: seq<Entry>,
        words: seq<seq<Jump>>, more: seq<Entry>, jumps: seq<Jump>)
    requires |words| == |queue| > 0 && Led(g, depth, source, target, best, queue, words)
    requires Discovered(g, depth, source, target, words[0], more, jumps)
    ensures Led(g, depth, source, target, best[queue[0].config := words[0]], queue[1..] + more, Replaced(words, jumps))
  {
    TracedLeads(g, depth, source, queue[0], words[0]);
    LedAppend(g, depth, source, target, queue[1..], words[1..], more, Extended(words[0], jumps));
  }

  lemma LedAppend(
        g: View, depth: nat, source: Id, target: Id, queue: seq<Entry>, words: seq<seq<Jump>>, more: seq<Entry>,
        new_: seq<seq<Jump>>)
    requires |words| == |queue| && |more| == |new_|
    requires forall i :: 0 <= i < |queue| ==>
               queue[i].config.op != target && Traces(g, depth, source, queue[i], words[i])
    requires forall i :: 0 <= i < |more| ==> more[i].config.op != target && Traces(g, depth, source, more[i], new_[i])
    ensures forall i :: 0 <= i < |queue + more| ==>
              (queue + more)[i].config.op != target && Traces(g, depth, source, (queue + more)[i], (words + new_)[i])
  {}

  /** Expanding the head: its successors wait behind the others. */
  lemma PushSearching(
        g: View, depth: nat, source: Id, target: Id, best: map<Config, seq<Jump>>, queue: seq<Entry>,
        words: seq<seq<Jump>>, more: seq<Entry>, jumps: seq<Jump>)
    requires queue != [] && Searching(g, depth, source, target, best, queue, words, {}) && queue[0].config !in best
    requires Discovered(g, depth, source, target, words[0], more, jumps)
    requires AllListed(g, depth, target, queue[0].config, more, jumps)
    ensures Searching(g, depth, source, target, best[queue[0].config := words[0]], queue[1..] + more,
                      Replaced(words, jumps), {})
  {
    var c := queue[0].config;
    var later := best[c := words[0]];
    PushFrontier(g, depth, source, target, best, queue, words, more, jumps, later);
    forall w, a | w in words[1..] && a in jumps ensures Leq(w, words[0] + [a]) {
      AllComeFirst(g, depth, source, target, best, queue, words, w, a);
    }
    PushKeepsSorted(words, jumps);
    PushKeepsBehind(best, words, jumps, c, later);
    PushKeepsBorn(best, words, jumps, c, later);
    PushKeepsLed(g, depth, source, target, best, queue, words, more, jumps);
  }

  lemma PushFrontier(
        g: View, depth: nat, source: Id, target: Id, best: map<Config, seq<Jump>>, queue: seq<Entry>,
        words: seq<seq<Jump>>, more: seq<Entry>, jumps: seq<Jump>, later: map<Config, seq<Jump>>)
    requires queue != [] && |words| == |queue| && Frontier(g, depth, source, target, best, queue, words, {})
    requires |more| == |jumps| && AllListed(g, depth, target, queue[0].config, more, jumps)
    requires queue[0].config !in best && later == best[queue[0].config := words[0]]
    ensures Frontier(g, depth, source, target, later, queue[1..] + more, Replaced(words, jumps), {})
  {
    assert Leq(words[0], words[0]);
    PopKeepsFrontier(g, depth, source, target, best, queue, words, later, {queue[0].config});
    PushKeepsFrontier(g, depth, source, target, later, queue[1..], words[1..], queue[0].config, more, jumps);
  }
}
