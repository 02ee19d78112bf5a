/** Unmitigated error retries inside unbounded loops (smartbench/analysis/retry_loops.py). */
module RetryLoops {
  import opened Sequences
  import opened Walks
  import opened Ir
  import opened ControlFlow
  import opened DepthFirst

  /** The regular expressions and attribute readers of the analyzer; any functions will do. */
  datatype RetryText = RetryText(
    unbounded: Op -> bool,
    risky: Op -> bool,
    resultNames: Op -> seq<string>,
    errorOutcome: (Op, seq<string>) -> Option<(string, EdgeKind)>,
    assignedBy: Op -> set<string>,
    limitGuard: string -> bool,
    identifiers: string -> set<string>,
    mitigationCall: string -> bool,
    passthrough: string -> bool)

  function TextOf(op: Op): string {
    if op.target != "" then op.target else op.value
  }

  /** _is_mitigation */
  predicate IsMitigation(t: RetryText, op: Op, guardNames: set<string>, errorVariable: string) {
    if op.kind.Branch? then
      t.limitGuard(op.value) || (t.identifiers(op.value) * guardNames) - {errorVariable} != {}
    else
      (op.kind.Call? || op.kind.Spawn?) && t.mitigationCall(TextOf(op))
  }

  /** _blocks_immediate_retry */
  predicate BlocksRetry(t: RetryText, op: Op) {
    (op.kind.Call? || op.kind.Spawn? || op.kind.Send? || op.kind.Emit?) && !t.passthrough(TextOf(op))
  }

  // ---------- what the search decides ----------

  /** Steps inside the body, not along a loop-back arc, to an operation that neither mitigates
      nor blocks. */
  ghost function RetryRel(g: Graph, t: RetryText, body: set<Id>, guardNames: set<string>,
          errorVariable: string): Relation {
    set a | a in g.arcs && !a.kind.LoopBack? && a.source in body && a.target in g.ops &&
            !IsMitigation(t, g.ops[a.target], guardNames, errorVariable) && !BlocksRetry(t, g.ops[a.target])
         :: (a.source, a.target)
  }

  ghost predicate LoopsBack(g: Graph, n: Id, loop: Id) {
    exists a :: a in g.arcs && a.kind.LoopBack? && a.source == n && a.target == loop
  }

  /** n jumps straight back to the loop head, and an error branch leads to n immediately. */
  ghost predicate RetriesAt(g: Graph, rel: Relation, starts: set<Id>, loop: Id, body: set<Id>, n: Id) {
    n in g.ops && n in body && LoopsBack(g, n, loop) && exists s :: s in starts && ReachStar(rel, s, n)
  }

  ghost predicate Retries(g: Graph, rel: Relation, starts: set<Id>, loop: Id, body: set<Id>) {
    exists n :: RetriesAt(g, rel, starts, loop, body, n)
  }

  /** The same, spelled out: a walk confined to the body, without loop-back arcs, from an
      error-branch target to an operation that loops back, on which every operation after the
      first neither mitigates nor blocks.  The first operation is not classified. */
  ghost predicate RetryWalk(
    g: Graph, t: RetryText, starts: set<Id>, loop: Id, body: set<Id>, guardNames: set<string>, errorVariable: string,
    w: seq<Id>)
  {
    && IsWalk(LoopFreeRel(g), w) && w[0] in starts
    && (forall i :: 0 <= i < |w| ==> w[i] in body && w[i] in g.ops)
    && (forall i :: 1 <= i < |w| ==>
          !IsMitigation(t, g.ops[w[i]], guardNames, errorVariable) && !BlocksRetry(t, g.ops[w[i]]))
    && LoopsBack(g, w[|w| - 1], loop)
  }

  predicate Immediate(t: RetryText, op: Op, guardNames: set<string>, errorVariable: string) {
    !IsMitigation(t, op, guardNames, errorVariable) && !BlocksRetry(t, op)
  }

  lemma RetryStep(g: Graph, t: RetryText, body: set<Id>, guardNames: set<string>, errorVariable: string, u: Id, v: Id)
    requires WellFormed(g)
    ensures (u, v) in RetryRel(g, t, body, guardNames, errorVariable) <==>
            (u, v) in LoopFreeRel(g) && u in body && Immediate(t, g.ops[v], guardNames, errorVariable)
    ensures (u, v) in LoopFreeRel(g) ==> u in g.ops && v in g.ops
  {
    if (u, v) in LoopFreeRel(g) && u in body && Immediate(t, g.ops[v], guardNames, errorVariable) {
      var a :| a in g.arcs && !a.kind.LoopBack? && (a.source, a.target) == (u, v);
      assert a.source in body && a.target in g.ops;
    }
  }

  lemma RetriesMeansWalk(
        g: Graph, t: RetryText, starts: set<Id>, loop: Id, body: set<Id>, guardNames: set<string>,
        errorVariable: string)
    requires WellFormed(g)
    ensures Retries(g, RetryRel(g, t, body, guardNames, errorVariable), starts, loop, body)
            <==> exists w :: RetryWalk(g, t, starts, loop, body, guardNames, errorVariable, w)
  {
    var rel := RetryRel(g, t, body, guardNames, errorVariable);
    if Retries(g, rel, starts, loop, body) {
      var n :| RetriesAt(g, rel, starts, loop, body, n);
      var s :| s in starts && ReachStar(rel, s, n);
      var p := [n];
      if s != n {
        p :| WalkFromTo(rel, p, s, n) && |p| > 1;
      }
      ReachedWalkIsRetryWalk(g, t, starts, loop, body, guardNames, errorVariable, p);
    }
    if w :| RetryWalk(g, t, starts, loop, body, guardNames, errorVariable, w) {
      forall i, j | 0 <= i && j == i + 1 && j < |w| ensures (w[i], w[j]) in rel {
        RetryStep(g, t, body, guardNames, errorVariable, w[i], w[j]);
      }
      assert |w| > 1 ==> WalkFromTo(rel, w, w[0], w[|w| - 1]);
      assert RetriesAt(g, rel, starts, loop, body, w[|w| - 1]);
    }
  }

  lemma ReachedWalkIsRetryWalk(
        g: Graph, t: RetryText, starts: set<Id>, loop: Id, body: set<Id>, guardNames: set<string>,
        errorVariable: string, p: seq<Id>)
    requires WellFormed(g)
    requires IsWalk(RetryRel(g, t, body, guardNames, errorVariable), p) && p[0] in starts
    requires p[|p| - 1] in body && p[|p| - 1] in g.ops && LoopsBack(g, p[|p| - 1], loop)
    ensures RetryWalk(g, t, starts, loop, body, guardNames, errorVariable, p)
  {
    var rel := RetryRel(g, t, body, guardNames, errorVariable);
    forall i, j | 0 <= i && j == i + 1 && j < |p| ensures (p[i], p[j]) in LoopFreeRel(g) {
      RetryStep(g, t, body, guardNames, errorVariable, p[i], p[j]);
    }
    forall i | 0 <= i < |p| - 1 ensures p[i] in body && p[i] in g.ops {
      var j := i + 1;
      assert (p[i], p[j]) in rel;
      RetryStep(g, t, body, guardNames, errorVariable, p[i], p[j]);
    }
    forall j | 1 <= j < |p| ensures Immediate(t, g.ops[p[j]], guardNames, errorVariable) {
      var i := j - 1;
      assert (p[i], p[j]) in rel;
      RetryStep(g, t, body, guardNames, errorVariable, p[i], p[j]);
    }
  }

  // ---------- the search ----------

  /** Clean steps with the kinds of their arcs. */
  ghost function RetryHops(g: Graph, t: RetryText, body: set<Id>, guardNames: set<string>,
          errorVariable: string): set<(Id, Hop)> {
    set a | a in g.arcs && !a.kind.LoopBack? && a.source in body && a.target in g.ops &&
            Immediate(t, g.ops[a.target], guardNames, errorVariable) :: (a.source, Hop(KindRank(a.kind), a.target))
  }

  /** The operations that jump straight back to the loop head. */
  ghost function LoopBacks(g: Graph, loop: Id, body: set<Id>): set<Id> {
    set n | n in g.ops && n in body && LoopsBack(g, n, loop)
  }

  /** n ends the first trail: of all simple ways back, at each step along the last arc in the order of the
      sort key that still leads back. */
  ghost predicate FirstRetry(
        g: Graph, t: RetryText, starts: set<Id>, loop: Id, body: set<Id>, guardNames: set<string>,
        errorVariable: string, n: Id) {
    exists w :: First(RetryHops(g, t, body, guardNames, errorVariable), starts, LoopBacks(g, loop, body), w) &&
                End(w) == n
  }

  lemma FirstRetryIsUnique(
        g: Graph, t: RetryText, starts: set<Id>, loop: Id, body: set<Id>, guardNames: set<string>,
        errorVariable: string, m: Id, n: Id)
    requires FirstRetry(g, t, starts, loop, body, guardNames, errorVariable, m)
    requires FirstRetry(g, t, starts, loop, body, guardNames, errorVariable, n)
    ensures m == n
  {
    var hops, goals := RetryHops(g, t, body, guardNames, errorVariable), LoopBacks(g, loop, body);
    var v :| First(hops, starts, goals, v) && End(v) == m;
    var w :| First(hops, starts, goals, w) && End(w) == n;
    FirstIsUnique(hops, starts, goals, v, w);
  }

  lemma HopIsStep(
        g: Graph, t: RetryText, body: set<Id>, guardNames: set<string>, errorVariable: string, u: Id, v: Id)
    requires WellFormed(g)
    ensures (u, v) in RetryRel(g, t, body, guardNames, errorVariable) <==>
            exists h: Hop :: (u, h) in RetryHops(g, t, body, guardNames, errorVariable) && h.to == v
  {
    var rel, hops := RetryRel(g, t, body, guardNames, errorVariable), RetryHops(g, t, body, guardNames, errorVariable);
    if (u, v) in rel {
      var a :| a in g.arcs && !a.kind.LoopBack? && a.source in body && a.target in g.ops &&
               Immediate(t, g.ops[a.target], guardNames, errorVariable) && (a.source, a.target) == (u, v);
      assert (u, Hop(KindRank(a.kind), v)) in hops;
    }
    if h: Hop :| (u, h) in hops && h.to == v {
      var a :| a in g.arcs && !a.kind.LoopBack? && a.source in body && a.target in g.ops &&
               Immediate(t, g.ops[a.target], guardNames, errorVariable) &&
               (a.source, Hop(KindRank(a.kind), a.target)) == (u, h);
      assert (a.source, a.target) in rel;
    }
  }

  /** Hops and steps join the same operations. */
  ghost predicate HopsOf(rel: Relation, hops: set<(Id, Hop)>) {
    && (forall u: Id, h: Hop :: (u, h) in hops ==> (u, h.to) in rel)
    && forall u: Id, v: Id :: (u, v) in rel ==> exists h: Hop :: (u, h) in hops && h.to == v
  }

  lemma HopsAreSteps(g: Graph, t: RetryText, body: set<Id>, guardNames: set<string>, errorVariable: string)
    requires WellFormed(g)
    ensures HopsOf(RetryRel(g, t, body, guardNames, errorVariable), RetryHops(g, t, body, guardNames, errorVariable))
  {
    var hops := RetryHops(g, t, body, guardNames, errorVariable);
    forall u: Id, v: Id ensures (u, v) in RetryRel(g, t, body, guardNames, errorVariable) <==>
                                exists h: Hop :: (u, h) in hops && h.to == v {
      HopIsStep(g, t, body, guardNames, errorVariable, u, v);
    }
  }

  /** A trail is a way by clean steps. */
  lemma {:induction false} TrailReaches(rel: Relation, hops: set<(Id, Hop)>, starts: set<Id>, w: Word)
    requires HopsOf(rel, hops) && Trail(hops, starts, w)
    ensures ReachStar(rel, w[0].to, End(w))
    decreases |w|
  {
    if |w| > 1 {
      var u := w[|w| - 2];
      assert (u.to, w[|w| - 1]) in hops;
      TrailReaches(rel, hops, starts, Front(w));
      ReachStep(rel, w[0].to, u.to, End(w));
    }
  }

  /** The end of the first trail is reached and loops back. */
  lemma FirstRetries(
        g: Graph, t: RetryText, starts: set<Id>, loop: Id, body: set<Id>, guardNames: set<string>,
        errorVariable: string, n: Id)
    requires WellFormed(g) && FirstRetry(g, t, starts, loop, body, guardNames, errorVariable, n)
    ensures RetriesAt(g, RetryRel(g, t, body, guardNames, errorVariable), starts, loop, body, n)
  {
    var hops := RetryHops(g, t, body, guardNames, errorVariable);
    var w :| First(hops, starts, LoopBacks(g, loop, body), w) && End(w) == n;
    HopsAreSteps(g, t, body, guardNames, errorVariable);
    TrailReaches(RetryRel(g, t, body, guardNames, errorVariable), hops, starts, w);
  }

  /** Where nothing waits, nothing loops back. */
  lemma NothingFound(rel: Relation, hops: set<(Id, Hop)>, starts: set<Id>, goals: set<Id>, seen: map<Id, Word>, n: Id)
    requires HopsOf(rel, hops) && Searching(hops, starts, goals, seen, []) && n in goals
    ensures forall s :: s in starts ==> !ReachStar(rel, s, n)
  {
    forall u: Id, v: Id | u in seen.Keys && (u, v) in rel ensures v in seen.Keys {
      var h: Hop :| (u, h) in hops && h.to == v;
    }
    forall s | s in starts ensures !ReachStar(rel, s, n) {
      assert s in seen && s !in goals;
      forall v: Id | (s, v) in rel ensures v in seen.Keys {}
      ReachStaysInside(rel, s, n, seen.Keys);
    }
  }

  datatype State = State(node: Id, mitigated: bool, blocked: bool)

  predicate Clean(s: State) {
    !s.mitigated && !s.blocked
  }

  /** Clean states carry the word by which they were reached, the others the empty word. */
  ghost predicate Carries(queue: seq<State>, words: seq<Word>) {
    && |words| == |queue|
    && forall i :: 0 <= i < |queue| ==>
         if Clean(queue[i]) then words[i] != [] && End(words[i]) == queue[i].node else words[i] == []
  }

  ghost function States(all: set<Id>): set<State> {
    set n, m, b | n in all && m in {true, false} && b in {true, false} :: State(n, m, b)
  }

  function HopOf(a: Arc): Hop {
    Hop(KindRank(a.kind), a.target)
  }

  /** A word more from the arcs before i of a clean operation. */
  ghost predicate FromArc(hops: set<(Id, Hop)>, p: Word, arcs: seq<Arc>, i: nat, w: Word)
    requires p != [] && i <= |arcs|
  {
    exists k :: 0 <= k < i && w == p + [HopOf(arcs[k])] && (End(p), HopOf(arcs[k])) in hops
  }

  /** What following the arcs before i of a clean operation has appended. */
  ghost predicate Followed(
        hops: set<(Id, Hop)>, p: Word, loop: Id, arcs: seq<Arc>, i: nat, fan: seq<Word>)
    requires p != [] && i <= |arcs|
  {
    && (forall w :: w in fan && w != [] ==> FromArc(hops, p, arcs, i, w))
    && (forall k :: 0 <= k < i ==>
          if arcs[k].kind.LoopBack? then arcs[k].target != loop
          else (End(p), HopOf(arcs[k])) in hops ==> p + [HopOf(arcs[k])] in fan)
    && forall j, k :: 0 <= j < k < |fan| && fan[j] != [] && fan[k] != [] ==>
         fan[k] == fan[j] || PartsAt(fan[k], fan[j], |p|)
  }

  /** One more arc, with a word if its target is clean. */
  lemma FollowOne(hops: set<(Id, Hop)>, p: Word, loop: Id, arcs: seq<Arc>, i: nat, fan: seq<Word>, w: Word)
    requires p != [] && i < |arcs| && Followed(hops, p, loop, arcs, i, fan)
    requires forall k :: 0 <= k < i ==> ArcLeq(arcs[k], arcs[i]) && arcs[k].source == arcs[i].source
    requires !arcs[i].kind.LoopBack?
    requires w == if (End(p), HopOf(arcs[i])) in hops then p + [HopOf(arcs[i])] else []
    ensures Followed(hops, p, loop, arcs, i + 1, fan + [w])
  {
    var next := fan + [w];
    forall v | v in next && v != [] ensures FromArc(hops, p, arcs, i + 1, v) {
      if v in fan {
        assert FromArc(hops, p, arcs, i, v);
      } else {
        assert v == p + [HopOf(arcs[i])];
      }
    }
    forall j | 0 <= j < |fan| && fan[j] != [] && w != []
      ensures w == fan[j] || PartsAt(w, fan[j], |p|)
    {
      assert fan[j] in fan;
      var k :| 0 <= k < i && fan[j] == p + [HopOf(arcs[k])] && (End(p), HopOf(arcs[k])) in hops;
      HopsInOrder(arcs[k], arcs[i]);
    }
  }

  lemma HopsInOrder(a: Arc, b: Arc)
    requires ArcLeq(a, b) && a.source == b.source
    ensures HopOf(a) == HopOf(b) || HopLess(HopOf(a), HopOf(b))
  {}

  lemma SkipOne(hops: set<(Id, Hop)>, p: Word, loop: Id, arcs: seq<Arc>, i: nat, fan: seq<Word>)
    requires p != [] && i < |arcs| && Followed(hops, p, loop, arcs, i, fan)
    requires arcs[i].kind.LoopBack? && arcs[i].target != loop
    ensures Followed(hops, p, loop, arcs, i + 1, fan)
  {
    forall v | v in fan && v != [] ensures FromArc(hops, p, arcs, i + 1, v) {
      assert FromArc(hops, p, arcs, i, v);
    }
  }

  /** All arcs followed: the words fan out from p, and p does not loop back. */
  lemma AllFollowed(
        t: RetryText, cfg: ControlFlowGraph, body: set<Id>, guardNames: set<string>, errorVariable: string,
        p: Word, loop: Id, arcs: seq<Arc>, fan: seq<Word>)
    requires cfg.Built() && p != [] && arcs == Lookup(cfg.successors, End(p))
    requires Followed(RetryHops(cfg.graph, t, body, guardNames, errorVariable), p, loop, arcs, |arcs|, fan)
    ensures Fans(RetryHops(cfg.graph, t, body, guardNames, errorVariable), p, fan)
    ensures !LoopsBack(cfg.graph, End(p), loop)
  {
    var hops := RetryHops(cfg.graph, t, body, guardNames, errorVariable);
    forall a | a in cfg.graph.arcs && a.kind.LoopBack? && a.source == End(p) ensures a.target != loop {
      assert a in arcs;
    }
    forall h: Hop | (End(p), h) in hops ensures p + [h] in fan {
      var a :| a in cfg.graph.arcs && !a.kind.LoopBack? && (a.source, Hop(KindRank(a.kind), a.target)) == (End(p), h);
      assert a in arcs;
      var k :| 0 <= k < |arcs| && arcs[k] == a;
    }
    forall w | w in fan && w != [] ensures |w| == |p| + 1 && Front(w) == p && (End(p), w[|p|]) in hops {
      assert FromArc(hops, p, arcs, |arcs|, w);
    }
  }

  /** Entries for the successors of one state, as the loop over its arcs appends them. */
  method ExpandState(
    t: RetryText, cfg: ControlFlowGraph, state: State, ghost p: Word, loop: Id, ghost body: set<Id>,
    guardNames: set<string>, errorVariable: string)
    returns (found: bool, more: seq<State>, ghost fan: seq<Word>)
    requires cfg.Built() && state.node in body
    requires if Clean(state) then p != [] && End(p) == state.node else p == []
    ensures found ==> Clean(state) && LoopsBack(cfg.graph, state.node, loop)
    ensures Carries(more, fan) && forall s :: s in more ==> s.node in cfg.operations
    ensures !found && Clean(state) ==>
              !LoopsBack(cfg.graph, state.node, loop) &&
              Fans(RetryHops(cfg.graph, t, body, guardNames, errorVariable), p, fan)
    ensures !Clean(state) ==> forall w :: w in fan ==> w == []
  {
    found, more, fan := false, [], [];
    var arcs := Lookup(cfg.successors, state.node);
    ghost var hops := RetryHops(cfg.graph, t, body, guardNames, errorVariable);
    for i := 0 to |arcs|
      invariant Carries(more, fan) && forall s :: s in more ==> s.node in cfg.operations
      invariant Clean(state) ==> Followed(hops, p, loop, arcs, i, fan)
      invariant !Clean(state) ==> forall w :: w in fan ==> w == []
    {
      var arc := arcs[i];
      assert arc in arcs;
      if arc.kind.LoopBack? {
        if arc.target == loop && Clean(state) {
          found := true;
          return;
        }
        if Clean(state) { SkipOne(hops, p, loop, arcs, i, fan); }
        continue;
      }
      var target := cfg.operations[arc.target];
      var mitigated := state.mitigated || IsMitigation(t, target, guardNames, errorVariable);
      var blocked := state.blocked || BlocksRetry(t, target);
      ghost var w := if !mitigated && !blocked then p + [HopOf(arc)] else [];
      if Clean(state) {
        ArcIsHop(t, cfg, body, guardNames, errorVariable, arc);
        ArcsInOrder(cfg, state.node, arcs, i);
        FollowOne(hops, p, loop, arcs, i, fan, w);
      }
      more, fan := more + [State(arc.target, mitigated, blocked)], fan + [w];
    }
    if Clean(state) {
      AllFollowed(t, cfg, body, guardNames, errorVariable, p, loop, arcs, fan);
    }
  }

  /** An arc that is not a loop-back is a hop exactly when its target is immediate. */
  lemma ArcIsHop(
        t: RetryText, cfg: ControlFlowGraph, body: set<Id>, guardNames: set<string>, errorVariable: string, arc: Arc)
    requires cfg.Built() && arc in cfg.graph.arcs && !arc.kind.LoopBack? && arc.source in body
    ensures (arc.source, HopOf(arc)) in RetryHops(cfg.graph, t, body, guardNames, errorVariable) <==>
            Immediate(t, cfg.operations[arc.target], guardNames, errorVariable)
  {
    var hops := RetryHops(cfg.graph, t, body, guardNames, errorVariable);
    if (arc.source, HopOf(arc)) in hops {
      var a :| a in cfg.graph.arcs && !a.kind.LoopBack? && a.source in body && a.target in cfg.graph.ops &&
               Immediate(t, cfg.graph.ops[a.target], guardNames, errorVariable) &&
               (a.source, Hop(KindRank(a.kind), a.target)) == (arc.source, HopOf(arc));
    }
  }

  lemma ArcsInOrder(cfg: ControlFlowGraph, id: Id, arcs: seq<Arc>, i: nat)
    requires cfg.Built() && arcs == Lookup(cfg.successors, id) && i < |arcs|
    ensures forall k :: 0 <= k < i ==> ArcLeq(arcs[k], arcs[i]) && arcs[k].source == arcs[i].source
  {
    forall k | 0 <= k < i ensures ArcLeq(arcs[k], arcs[i]) && arcs[k].source == arcs[i].source {
      assert arcs[k] in arcs && arcs[i] in arcs;
    }
  }

  /** _unmitigated_loopback: a depth-first search over (operation, mitigated, blocked).  Of all operations
      that an immediate retry passes last, it finds the one at the end of the first trail. */
  method UnmitigatedLoopback(
    t: RetryText, cfg: ControlFlowGraph, startIds: seq<Id>, loop: Id, body: set<Id>, guardNames: set<string>,
    errorVariable: string)
    returns (retry: Option<Op>)
    requires cfg.Built() && forall i, j :: 0 <= i < j < |startIds| ==> startIds[i] <= startIds[j]
    ensures retry.Some? <==>
            Retries(cfg.graph, RetryRel(cfg.graph, t, body, guardNames, errorVariable), SetOf(startIds), loop, body)
    ensures retry.Some? ==>
              && retry.value.id in cfg.graph.ops && cfg.graph.ops[retry.value.id] == retry.value
              && FirstRetry(cfg.graph, t, SetOf(startIds), loop, body, guardNames, errorVariable, retry.value.id)
  {
    ghost var hops := RetryHops(cfg.graph, t, body, guardNames, errorVariable);
    ghost var goals := LoopBacks(cfg.graph, loop, body);
    ghost var seen;
    retry, seen := SearchStates(t, cfg, hops, startIds, SetOf(startIds), goals, loop, body, guardNames, errorVariable);
    HopsAreSteps(cfg.graph, t, body, guardNames, errorVariable);
    if retry.Some? {
      FirstRetries(cfg.graph, t, SetOf(startIds), loop, body, guardNames, errorVariable, retry.value.id);
    } else {
      NoRetries(cfg.graph, RetryRel(cfg.graph, t, body, guardNames, errorVariable), hops, SetOf(startIds), goals, loop,
        body, seen);
    }
  }

  lemma NoRetries(
        g: Graph, rel: Relation, hops: set<(Id, Hop)>, starts: set<Id>, goals: set<Id>, loop: Id, body: set<Id>,
        seen: map<Id, Word>)
    requires HopsOf(rel, hops) && goals == LoopBacks(g, loop, body) && Searching(hops, starts, goals, seen, [])
    ensures !Retries(g, rel, starts, loop, body)
  {
    if n :| RetriesAt(g, rel, starts, loop, body, n) { NothingFound(rel, hops, starts, goals, seen, n); }
  }

  /** The clean states visited are the operations seen. */
  ghost predicate Remembers(visited: set<State>, seen: map<Id, Word>) {
    forall v: Id :: State(v, false, false) in visited <==> v in seen
  }

  /** What every iteration of the search keeps. */
  ghost predicate Running(
        hops: set<(Id, Hop)>, starts: set<Id>, goals: set<Id>, all: set<State>, visited: set<State>,
        seen: map<Id, Word>, queue: seq<State>, words: seq<Word>) {
    && (forall s :: s in queue ==> s in all) && visited <= all
    && Remembers(visited, seen) && Carries(queue, words) && Searching(hops, starts, goals, seen, words)
  }

  method SearchStates(
    t: RetryText, cfg: ControlFlowGraph, ghost hops: set<(Id, Hop)>, startIds: seq<Id>, ghost starts: set<Id>,
    ghost goals: set<Id>, loop: Id, body: set<Id>, guardNames: set<string>, errorVariable: string)
    returns (retry: Option<Op>, ghost seen: map<Id, Word>)
    requires cfg.Built() && starts == SetOf(startIds) && goals == LoopBacks(cfg.graph, loop, body)
    requires hops == RetryHops(cfg.graph, t, body, guardNames, errorVariable)
    requires forall i, j :: 0 <= i < j < |startIds| ==> startIds[i] <= startIds[j]
    ensures retry.Some? ==>
              && retry.value.id in cfg.graph.ops && cfg.graph.ops[retry.value.id] == retry.value
              && exists w :: First(hops, starts, goals, w) && End(w) == retry.value.id
    ensures retry.None? ==> Searching(hops, starts, goals, seen, [])
  {
    ghost var all := States(cfg.operations.Keys + starts);
    var visited: set<State> := {};
    var queue := MapSeq((s: Id) => State(s, false, false), startIds);
    ghost var words := InitialWords(hops, starts, goals, startIds, queue);
    seen := map[];
    StartsAreStates(cfg, startIds, queue, all);
    while queue != []
      invariant Running(hops, starts, goals, all, visited, seen, queue, words)
      decreases all - visited, |queue|
    {
      var state := queue[|queue| - 1];
      SplitLast(queue);
      SplitLast(words);
      assert state in queue;
      if state in visited {
        PopSeen(hops, starts, goals, seen, words[..|words| - 1], words[|words| - 1]);
        queue, words := queue[..|queue| - 1], words[..|words| - 1];
        continue;
      }
      ghost var before := visited;
      visited := visited + {state};
      assert state !in before && state in all;
      var more, found;
      found, more, words, seen :=
        VisitState(t, cfg, hops, starts, goals, all, before, seen, queue[..|queue| - 1], words[..|words| - 1],
          words[|words| - 1], state, loop, body, guardNames, errorVariable);
      if found {
        return Some(cfg.operations[state.node]), seen;
      }
      queue := queue[..|queue| - 1] + more;
    }
    retry := None;
  }

  /** The rest of an iteration, for a state not visited before. */
  method VisitState(
    t: RetryText, cfg: ControlFlowGraph, ghost hops: set<(Id, Hop)>, ghost starts: set<Id>, ghost goals: set<Id>,
    ghost all: set<State>, ghost visited: set<State>, ghost known: map<Id, Word>, ghost queue: seq<State>,
    ghost below: seq<Word>, ghost p: Word, state: State, loop: Id, body: set<Id>, guardNames: set<string>,
    errorVariable: string)
    returns (found: bool, more: seq<State>, ghost words: seq<Word>, ghost seen: map<Id, Word>)
    requires cfg.Built() && goals == LoopBacks(cfg.graph, loop, body)
    requires hops == RetryHops(cfg.graph, t, body, guardNames, errorVariable)
    requires Running(hops, starts, goals, all, visited, known, queue + [state], below + [p])
    requires |below| == |queue| && state !in visited && state in all
    requires forall s: State :: s.node in cfg.operations ==> s in all
    ensures found ==>
              state.node in cfg.operations && cfg.operations[state.node].id == state.node &&
              First(hops, starts, goals, p) && End(p) == state.node
    ensures !found ==> Running(hops, starts, goals, all, visited + {state}, seen, queue + more, words)
  {
    found, more, words, seen := false, [], below, known;
    TopCarries(queue, below, state, p);
    assert (state.node in known) <==> State(state.node, false, false) in visited;
    if state.node !in cfg.operations || state.node !in body {
      seen := PopOutside(t, cfg, hops, starts, goals, known, loop, body, guardNames, errorVariable, below, p, state);
      assert queue + more == queue;
      RunningStill(hops, starts, goals, all, visited, known, queue, below, state, p, seen, [], []);
      return;
    }
    ghost var fan;
    found, more, fan := ExpandState(t, cfg, state, p, loop, body, guardNames, errorVariable);
    if found {
      TopIsFirst(hops, starts, goals, known, below, p);
    } else {
      seen := PopExpanded(hops, starts, goals, known, below, p, state, fan);
      assert forall s :: s in more ==> s in all;
      words := below + fan;
      RunningStill(hops, starts, goals, all, visited, known, queue, below, state, p, seen, more, fan);
    }
  }

  lemma TopCarries(queue: seq<State>, words: seq<Word>, state: State, p: Word)
    requires Carries(queue + [state], words + [p]) && |queue| == |words|
    ensures Carries(queue, words)
    ensures if Clean(state) then p != [] && End(p) == state.node else p == []
  {
    assert (queue + [state])[|queue|] == state && (words + [p])[|queue|] == p;
    assert forall i :: 0 <= i < |queue| ==> (queue + [state])[i] == queue[i] && (words + [p])[i] == words[i];
  }

  lemma RunningStill(
        hops: set<(Id, Hop)>, starts: set<Id>, goals: set<Id>, all: set<State>, visited: set<State>,
        known: map<Id, Word>, queue: seq<State>, below: seq<Word>, state: State, p: Word, seen: map<Id, Word>,
        more: seq<State>, fan: seq<Word>)
    requires Running(hops, starts, goals, all, visited, known, queue + [state], below + [p])
    requires |below| == |queue| && state in all && Carries(more, fan) && forall s :: s in more ==> s in all
    requires Searching(hops, starts, goals, seen, below + fan)
    requires forall v: Id :: v in seen <==> v in known || (Clean(state) && v == state.node)
    ensures Running(hops, starts, goals, all, visited + {state}, seen, queue + more, below + fan)
  {
    TopCarries(queue, below, state, p);
    CarriesBoth(queue, below, more, fan);
    forall s | s in queue + more ensures s in all {
      if s in queue { assert s in queue + [state]; }
    }
  }

  lemma CarriesBoth(queue: seq<State>, words: seq<Word>, more: seq<State>, fan: seq<Word>)
    requires Carries(queue, words) && Carries(more, fan)
    ensures Carries(queue + more, words + fan)
  {
    forall i | |queue| <= i < |queue + more|
      ensures (queue + more)[i] == more[i - |queue|] && (words + fan)[i] == fan[i - |queue|]
    {}
  }

  lemma StartsAreStates(cfg: ControlFlowGraph, startIds: seq<Id>, queue: seq<State>, all: set<State>)
    requires queue == MapSeq((s: Id) => State(s, false, false), startIds)
    requires all == States(cfg.operations.Keys + SetOf(startIds))
    ensures forall s :: s in queue ==> s in all
    ensures forall s: State :: s.node in cfg.operations ==> s in all
  {
    forall s | s in queue ensures s in all {
      var i :| 0 <= i < |queue| && queue[i] == s;
      assert startIds[i] in startIds;
    }
  }

  lemma InitialWords(
        hops: set<(Id, Hop)>, starts: set<Id>, goals: set<Id>, startIds: seq<Id>, queue: seq<State>)
    returns (words: seq<Word>)
    requires starts == SetOf(startIds) && forall i, j :: 0 <= i < j < |startIds| ==> startIds[i] <= startIds[j]
    requires queue == MapSeq((s: Id) => State(s, false, false), startIds)
    ensures Carries(queue, words) && Searching(hops, starts, goals, map[], words)
  {
    words := seq(|startIds|, i requires 0 <= i < |startIds| => [Hop(0, startIds[i])]);
    SearchBegins(hops, starts, goals, startIds, words);
  }

  /** Appending entries that do not count. */
  lemma AppendUncounted(
        hops: set<(Id, Hop)>, starts: set<Id>, goals: set<Id>, seen: map<Id, Word>, words: seq<Word>, fan: seq<Word>)
    requires Searching(hops, starts, goals, seen, words) && forall w :: w in fan ==> w == []
    ensures Searching(hops, starts, goals, seen, words + fan)
  {
    assert forall j :: |words| <= j < |words + fan| ==> (words + fan)[j] in fan;
  }

  lemma PopOutside(
        t: RetryText, cfg: ControlFlowGraph, hops: set<(Id, Hop)>, starts: set<Id>, goals: set<Id>,
        seen: map<Id, Word>, loop: Id, body: set<Id>, guardNames: set<string>, errorVariable: string,
        words: seq<Word>, p: Word, state: State)
    returns (next: map<Id, Word>)
    requires cfg.Built() && hops == RetryHops(cfg.graph, t, body, guardNames, errorVariable)
    requires goals == LoopBacks(cfg.graph, loop, body) && Searching(hops, starts, goals, seen, words + [p])
    requires if Clean(state) then p != [] && End(p) == state.node && state.node !in seen else p == []
    requires state.node !in cfg.operations || state.node !in body
    ensures Searching(hops, starts, goals, next, words)
    ensures forall v :: v in next <==> v in seen || (Clean(state) && v == state.node)
  {
    if Clean(state) {
      forall h: Hop ensures (state.node, h) !in hops {}
      PopFan(hops, starts, goals, seen, words, p, []);
      next := seen[state.node := p];
      assert words + [] == words;
    } else {
      PopSeen(hops, starts, goals, seen, words, p);
      next := seen;
    }
  }

  lemma PopExpanded(
        hops: set<(Id, Hop)>, starts: set<Id>, goals: set<Id>, seen: map<Id, Word>, words: seq<Word>, p: Word,
        state: State, fan: seq<Word>)
    returns (next: map<Id, Word>)
    requires Searching(hops, starts, goals, seen, words + [p])
    requires if Clean(state) then p != [] && End(p) == state.node && state.node !in seen else p == []
    requires if Clean(state) then state.node !in goals && Fans(hops, p, fan) else forall w :: w in fan ==> w == []
    ensures Searching(hops, starts, goals, next, words + fan)
    ensures forall v :: v in next <==> v in seen || (Clean(state) && v == state.node)
  {
    if Clean(state) {
      PopFan(hops, starts, goals, seen, words, p, fan);
      next := seen[state.node := p];
    } else {
      PopSeen(hops, starts, goals, seen, words, p);
      AppendUncounted(hops, starts, goals, seen, words, fan);
      next := seen;
    }
  }

  // ---------- the loop body ----------

  ghost function BodyRel(g: Graph): Relation {
    set a | a in g.arcs && !a.kind.LoopExit? :: (a.source, a.target)
  }

  /** Operations reached from the loop head without leaving the loop. */
  ghost predicate InCore(g: Graph, loop: Id, n: Id) {
    Reach(BodyRel(g), loop, n)
  }

  /** The core and its direct predecessors. */
  ghost predicate InBody(g: Graph, loop: Id, n: Id) {
    InCore(g, loop, n) || exists m: Id :: InCore(g, loop, m) && (n, m) in Rel(g)
  }

  function BodyIds(cfg: ControlFlowGraph, id: Id): seq<Id> {
    MapSeq((a: Arc) => a.target, Filter((a: Arc) => !a.kind.LoopExit?, Lookup(cfg.successors, id)))
  }

  lemma BodyIdsMeaning(cfg: ControlFlowGraph, u: Id, v: Id)
    requires cfg.Built()
    ensures (u, v) in BodyRel(cfg.graph) <==> v in BodyIds(cfg, u)
    ensures (u, v) in BodyRel(cfg.graph) ==> v in cfg.operations
  {
    var kept := Filter((a: Arc) => !a.kind.LoopExit?, Lookup(cfg.successors, u));
    if (u, v) in BodyRel(cfg.graph) {
      var a :| a in cfg.graph.arcs && !a.kind.LoopExit? && (a.source, a.target) == (u, v);
      assert a in kept;
    }
    if v in BodyIds(cfg, u) {
      var i :| 0 <= i < |kept| && kept[i].target == v;
      assert kept[i] in kept;
    }
  }

  /** Adds the ids not yet in the body, and queues them. */
  method GrowBody(ids: seq<Id>, start: set<Id>, pending: seq<Id>) returns (body: set<Id>, queue: seq<Id>)
    ensures body == start + (set v | v in ids)
    ensures forall q :: q in queue ==> q in pending || q in ids
    ensures forall q :: q in pending ==> q in queue
    ensures forall v :: v in body && v !in start ==> v in queue
    ensures body == start ==> queue == pending
  {
    body, queue := start, pending;
    for i := 0 to |ids|
      invariant body == start + (set v | v in ids[..i])
      invariant forall q :: q in queue ==> q in pending || q in ids
      invariant forall q :: q in pending ==> q in queue
      invariant forall v :: v in body && v !in start ==> v in queue
      invariant body == start ==> queue == pending
    {
      assert ids[..i + 1] == ids[..i] + [ids[i]];
      if ids[i] !in body {
        body, queue := body + {ids[i]}, queue + [ids[i]];
      }
    }
    assert ids[..|ids|] == ids;
  }

  /** The worklist of _loop_body. */
  method LoopCore(cfg: ControlFlowGraph, ghost rel: Relation, loop: Id) returns (core: set<Id>)
    requires forall u: Id, v: Id :: (u, v) in rel <==> v in BodyIds(cfg, u)
    requires forall u: Id, v: Id :: (u, v) in rel ==> v in cfg.operations
    ensures forall n: Id :: n in core <==> Reach(rel, loop, n)
  {
    core := {};
    var queue := [loop];
    while queue != []
      invariant core <= cfg.operations.Keys
      invariant forall q :: q in queue ==> q == loop || q in core
      invariant forall n :: n in core ==> Reach(rel, loop, n)
      invariant forall u: Id, v: Id :: (u == loop || u in core) && u !in queue && (u, v) in rel ==> v in core
      decreases cfg.operations.Keys - core, |queue|
    {
      var current := queue[|queue| - 1];
      SplitLast(queue);
      assert current in queue;
      var rest := queue[..|queue| - 1];
      forall v | v in BodyIds(cfg, current) ensures v in cfg.operations && Reach(rel, loop, v) {
        ReachStep(rel, loop, current, v);
      }
      core, queue := GrowBody(BodyIds(cfg, current), core, rest);
    }
    forall n: Id | Reach(rel, loop, n) ensures n in core {
      if n !in core { ReachStaysInside(rel, loop, n, core); }
    }
  }

  /** _loop_body */
  method LoopBody(cfg: ControlFlowGraph, loop: Id) returns (body: set<Id>)
    requires cfg.Built()
    ensures forall n: Id :: n in body <==> InBody(cfg.graph, loop, n)
  {
    forall u: Id, v: Id ensures (u, v) in BodyRel(cfg.graph) <==> v in BodyIds(cfg, u) {
      BodyIdsMeaning(cfg, u, v);
    }
    forall u: Id, v: Id | (u, v) in BodyRel(cfg.graph) ensures v in cfg.operations {
      BodyIdsMeaning(cfg, u, v);
    }
    var core := LoopCore(cfg, BodyRel(cfg.graph), loop);
    body := AddProducers(cfg, Rel(cfg.graph), core);
  }

  /** Pulls in the direct predecessors of a snapshot of the body. */
  method AddProducers(cfg: ControlFlowGraph, ghost rel: Relation, core: set<Id>) returns (body: set<Id>)
    requires forall m: Id, p: Id :: p in cfg.PredecessorIds(m) <==> (p, m) in rel
    ensures forall n: Id :: n in body <==> n in core || exists m: Id :: m in core && (n, m) in rel
  {
    var snapshot := SortedSet(core);
    body := core;
    for i := 0 to |snapshot|
      invariant forall n: Id :: n in body <==> n in core || exists m: Id :: m in snapshot[..i] && (n, m) in rel
    {
      assert snapshot[..i + 1] == snapshot[..i] + [snapshot[i]];
      var producers := cfg.PredecessorIds(snapshot[i]);
      body := body + (set p | p in producers);
    }
    assert snapshot[..|snapshot|] == snapshot;
  }

  // ---------- the analyzer ----------

  datatype Violation = Violation(loop: Op, call: Op, branch: Op, loopBack: Op, errorVariable: string)

  type Key = (Id, Id, Id)

  function KeyOf(v: Violation): Key {
    (v.loop.id, v.call.id, v.branch.id)
  }

  /** That a branch was evaluated for a loop and a call, and (reported) that it was reported. */
  datatype Mark = Mark(loop: Id, call: Id, branch: Id, reported: bool)

  function MarkOf(k: Key, reported: bool): Mark {
    Mark(k.0, k.1, k.2, reported)
  }

  datatype Result = Result(violations: seq<Violation>, loopsEvaluated: nat, errorBranchesEvaluated: nat,
          mitigatedPaths: nat)

  /** _assigned_names */
  function AssignedNames(t: RetryText, operations: seq<Op>, body: set<Id>): set<string> {
    set op, name | op in operations && op.id in body && (op.kind.Assign? || op.kind.Update?) &&
      name in t.assignedBy(op) :: name
  }

  ghost function OutcomeTargets(g: Graph, branch: Id, outcome: EdgeKind): set<Id> {
    set a | a in g.arcs && a.source == branch && a.kind == outcome :: a.target
  }

  lemma {:induction false} FilterKeepsOrder(f: Arc -> bool, arcs: seq<Arc>)
    requires SortedBy(ArcLeq, arcs)
    ensures SortedBy(ArcLeq, Filter(f, arcs))
    decreases |arcs|
  {
    if arcs != [] {
      FilterKeepsOrder(f, arcs[1..]);
      var rest := Filter(f, arcs[1..]);
      forall k | 0 <= k < |rest| ensures ArcLeq(arcs[0], rest[k]) {
        assert rest[k] in rest && rest[k] in arcs[1..];
        var j :| 0 <= j < |arcs[1..]| && arcs[1..][j] == rest[k];
        assert arcs[j + 1] == rest[k];
      }
    }
  }

  /** The starts come in ascending order. */
  lemma StartsAscend(cfg: ControlFlowGraph, branch: Id, outcome: EdgeKind)
    requires cfg.Built()
    ensures var ids := StartsOf(cfg, branch, outcome); forall i, j :: 0 <= i < j < |ids| ==> ids[i] <= ids[j]
  {
    var ids, arcs := StartsOf(cfg, branch, outcome), cfg.SuccessorsOfKind(branch, outcome);
    FilterKeepsOrder((a: Arc) => a.kind == outcome, Lookup(cfg.successors, branch));
    forall i, j | 0 <= i < j < |ids| ensures ids[i] <= ids[j] {
      assert arcs[i] in arcs && arcs[j] in arcs && ArcLeq(arcs[i], arcs[j]);
    }
  }

  lemma StartsAreTargets(cfg: ControlFlowGraph, branch: Id, outcome: EdgeKind)
    requires cfg.Built()
    ensures SetOf(StartsOf(cfg, branch, outcome)) == OutcomeTargets(cfg.graph, branch, outcome)
  {
    var arcs := cfg.SuccessorsOfKind(branch, outcome);
    forall s | s in StartsOf(cfg, branch, outcome) ensures s in OutcomeTargets(cfg.graph, branch, outcome) {
      var i :| 0 <= i < |arcs| && StartsOf(cfg, branch, outcome)[i] == s;
      assert arcs[i] in arcs;
    }
    forall s | s in OutcomeTargets(cfg.graph, branch, outcome) ensures s in StartsOf(cfg, branch, outcome) {
      var a :| a in cfg.graph.arcs && a.source == branch && a.kind == outcome && a.target == s;
      assert a in arcs;
    }
  }

  function StartsOf(cfg: ControlFlowGraph, branch: Id, outcome: EdgeKind): seq<Id> {
    MapSeq((a: Arc) => a.target, cfg.SuccessorsOfKind(branch, outcome))
  }

  /** The branch is in the body and checks an error result of the call. */
  ghost predicate BranchChecks(t: RetryText, body: set<Id>, call: Op, branch: Op) {
    branch.id in body && t.errorOutcome(branch, t.resultNames(call)).Some?
  }

  /** The branch checks the call's error result, and its error outcome retries immediately. */
  ghost predicate BranchReports(
        t: RetryText, g: Graph, loop: Op, body: set<Id>, guardNames: set<string>, call: Op, branch: Op) {
    && BranchChecks(t, body, call, branch)
    && var outcome := t.errorOutcome(branch, t.resultNames(call)).value;
       Retries(g, RetryRel(g, t, body, guardNames, outcome.0), OutcomeTargets(g, branch.id, outcome.1), loop.id, body)
  }

  predicate Eligible(t: RetryText, call: Op, body: set<Id>) {
    call.id in body && call.kind.Call? && t.risky(call) && t.resultNames(call) != []
  }

  ghost function KeysOf(violations: seq<Violation>): set<Key>
    decreases |violations|
  {
    if violations == [] then {}
    else KeysOf(violations[..|violations| - 1]) + {KeyOf(violations[|violations| - 1])}
  }

  /** Each evaluated branch has a mark, each reported one a second mark, a key and a violation. */
  ghost predicate Balanced(r: Result, seen: set<Key>, marks: set<Mark>) {
    && r.errorBranchesEvaluated == r.mitigatedPaths + |r.violations|
    && |marks| == r.errorBranchesEvaluated + |r.violations|
    && seen == KeysOf(r.violations) && |seen| == |r.violations|
    && SeenMarks(seen, marks)
  }

  ghost predicate SeenMarks(seen: set<Key>, marks: set<Mark>) {
    forall k :: k in seen <==> MarkOf(k, true) in marks
  }

  ghost predicate MarkedForCall(
        t: RetryText, g: Graph, loop: Op, body: set<Id>, guardNames: set<string>, call: Op, branches: seq<Op>,
        m: Mark) {
    m.loop == loop.id && m.call == call.id &&
    exists b :: b in branches && b.id == m.branch && MarkedBranch(t, g, loop, body, guardNames, call, b, m.reported)
  }

  ghost predicate MarkedBranch(
        t: RetryText, g: Graph, loop: Op, body: set<Id>, guardNames: set<string>, call: Op, branch: Op,
        reported: bool) {
    if reported then BranchReports(t, g, loop, body, guardNames, call, branch) else BranchChecks(t, body, call, branch)
  }

  ghost predicate MarkedForLoop(
        t: RetryText, g: Graph, loop: Op, body: set<Id>, guardNames: set<string>, calls: seq<Op>,
        branches: seq<Op>, m: Mark) {
    exists c :: c in calls && Eligible(t, c, body) && MarkedForCall(t, g, loop, body, guardNames, c, branches, m)
  }

  /** What a recorded violation says: its branch checks an error result of its call, and from the
      error outcome its loop-back operation ends the first trail back. */
  ghost predicate Witnessed(t: RetryText, g: Graph, body: set<Id>, guardNames: set<string>, v: Violation) {
    && BranchChecks(t, body, v.call, v.branch)
    && v.loopBack.id in g.ops && g.ops[v.loopBack.id] == v.loopBack
    && var outcome := t.errorOutcome(v.branch, t.resultNames(v.call)).value;
       && v.errorVariable == outcome.0
       && FirstRetry(g, t, OutcomeTargets(g, v.branch.id, outcome.1), v.loop.id, body, guardNames, outcome.0,
          v.loopBack.id)
  }

  ghost predicate WitnessFor(
        t: RetryText, g: Graph, loop: Op, body: set<Id>, guardNames: set<string>, call: Op, branch: Op, v: Violation) {
    v.loop == loop && v.call == call && v.branch == branch && Witnessed(t, g, body, guardNames, v)
  }

  /** The violation of one loop, one call and one branch, if any. */
  ghost function ViolationsAt(
        t: RetryText, g: Graph, loop: Op, body: set<Id>, guardNames: set<string>, call: Op,
        branch: Op): (r: seq<Violation>)
    ensures forall v :: v in r ==> WitnessFor(t, g, loop, body, guardNames, call, branch, v)
  {
    if exists v :: WitnessFor(t, g, loop, body, guardNames, call, branch, v) then
      var v :| WitnessFor(t, g, loop, body, guardNames, call, branch, v);
      [v]
    else []
  }

  /** The violations over some branches, calls, loops and scopes, one after the other. */
  ghost function OverBranches(
        t: RetryText, g: Graph, loop: Op, body: set<Id>, guardNames: set<string>, call: Op,
        branches: seq<Op>): seq<Violation>
    decreases |branches|
  {
    if branches == [] then []
    else
      OverBranches(t, g, loop, body, guardNames, call, branches[..|branches| - 1]) +
      ViolationsAt(t, g, loop, body, guardNames, call, branches[|branches| - 1])
  }

  ghost function OverCalls(
        t: RetryText, g: Graph, loop: Op, body: set<Id>, guardNames: set<string>, calls: seq<Op>,
        branches: seq<Op>): seq<Violation>
    decreases |calls|
  {
    if calls == [] then []
    else
      var call := calls[|calls| - 1];
      OverCalls(t, g, loop, body, guardNames, calls[..|calls| - 1], branches) +
      (if t.risky(call) && t.resultNames(call) != []
       then OverBranches(t, g, loop, body, guardNames, call, branches) else [])
  }

  function CallsIn(operations: seq<Op>, body: set<Id>): seq<Op> {
    Sort(ByLine, Filter((op: Op) => op.id in body && op.kind.Call?, operations))
  }

  ghost function LoopViolations(t: RetryText, g: Graph, operations: seq<Op>, loop: Op): seq<Violation> {
    var body := BodySet(g, loop.id);
    OverCalls(t, g, loop, body, AssignedNames(t, operations, body), CallsIn(operations, body), BranchesOf(operations))
  }

  ghost function OverLoops(t: RetryText, g: Graph, operations: seq<Op>, loops: seq<Op>): seq<Violation>
    decreases |loops|
  {
    if loops == [] then []
    else
      OverLoops(t, g, operations, loops[..|loops| - 1]) +
      (if t.unbounded(loops[|loops| - 1]) then LoopViolations(t, g, operations, loops[|loops| - 1]) else [])
  }

  ghost function OverScopes(
        t: RetryText, g: Graph, ir: SemanticIR, languages: set<string>, scopes: seq<Id>): seq<Violation>
    decreases |scopes|
  {
    if scopes == [] then []
    else
      var operations := ScopeOps(ir, languages, scopes[|scopes| - 1]);
      OverScopes(t, g, ir, languages, scopes[..|scopes| - 1]) + OverLoops(t, g, operations, LoopsOf(operations))
  }

  /** The violations of a program, in the order of the report: by scope, loop, call and branch. */
  ghost function ViolationsOf(t: RetryText, ir: SemanticIR, languages: set<string>): seq<Violation> {
    OverScopes(t, GraphOfIr(ir, languages), ir, languages, SortedSet(ScopesOf(ir, languages)))
  }

  /** There is at most one violation to choose from. */
  lemma WitnessIsUnique(t: RetryText, g: Graph, body: set<Id>, guardNames: set<string>, v: Violation, w: Violation)
    requires v.loop == w.loop && v.call == w.call && v.branch == w.branch
    requires Witnessed(t, g, body, guardNames, v) && Witnessed(t, g, body, guardNames, w)
    ensures v == w
  {
    var outcome := t.errorOutcome(v.branch, t.resultNames(v.call)).value;
    FirstRetryIsUnique(g, t, OutcomeTargets(g, v.branch.id, outcome.1), v.loop.id, body, guardNames, outcome.0,
      v.loopBack.id, w.loopBack.id);
  }

  lemma ViolationsAtAre(
        t: RetryText, g: Graph, loop: Op, body: set<Id>, guardNames: set<string>, call: Op, branch: Op,
        found: Option<Violation>)
    requires WellFormed(g)
    requires found.Some? ==> WitnessFor(t, g, loop, body, guardNames, call, branch, found.value)
    requires found.None? ==> !BranchReports(t, g, loop, body, guardNames, call, branch)
    ensures ViolationsAt(t, g, loop, body, guardNames, call, branch) ==
            if found.Some? then [found.value] else []
  {
    if v :| WitnessFor(t, g, loop, body, guardNames, call, branch, v) {
      var outcome := t.errorOutcome(branch, t.resultNames(call)).value;
      if found.None? {
        FirstRetries(g, t, OutcomeTargets(g, branch.id, outcome.1), loop.id, body, guardNames, outcome.0,
          v.loopBack.id);
      } else {
        WitnessIsUnique(t, g, body, guardNames, ViolationsAt(t, g, loop, body, guardNames, call, branch)[0],
          found.value);
      }
    }
  }

  /** The error branch test and the search behind one loop, one call and one branch. */
  method FindRetry(t: RetryText, cfg: ControlFlowGraph, loop: Op, body: set<Id>, guardNames: set<string>, call: Op,
          branch: Op)
    returns (evaluated: bool, found: Option<Violation>)
    requires cfg.Built()
    ensures evaluated <==> BranchChecks(t, body, call, branch)
    ensures found.Some? <==> BranchReports(t, cfg.graph, loop, body, guardNames, call, branch)
    ensures found.Some? ==> evaluated && KeyOf(found.value) == (loop.id, call.id, branch.id)
    ensures ViolationsAt(t, cfg.graph, loop, body, guardNames, call, branch) ==
            if found.Some? then [found.value] else []
  {
    evaluated, found := false, None;
    ghost var g := cfg.graph;
    if branch.id in body {
      var outcome := t.errorOutcome(branch, t.resultNames(call));
      if outcome.Some? {
        evaluated := true;
        found := SearchFrom(t, cfg, loop, body, guardNames, call, branch, outcome.value.0, outcome.value.1);
      }
    }
    ViolationsAtAre(t, g, loop, body, guardNames, call, branch, found);
  }

  /** The search from the error outcome of one branch. */
  method SearchFrom(
        t: RetryText, cfg: ControlFlowGraph, loop: Op, body: set<Id>, guardNames: set<string>, call: Op, branch: Op,
        errorVariable: string, outcome: EdgeKind)
    returns (found: Option<Violation>)
    requires cfg.Built() && BranchChecks(t, body, call, branch)
    requires t.errorOutcome(branch, t.resultNames(call)).value == (errorVariable, outcome)
    ensures found.Some? <==> BranchReports(t, cfg.graph, loop, body, guardNames, call, branch)
    ensures found.Some? ==> WitnessFor(t, cfg.graph, loop, body, guardNames, call, branch, found.value)
  {
    var starts := StartsOf(cfg, branch.id, outcome);
    StartsAreTargets(cfg, branch.id, outcome);
    StartsAscend(cfg, branch.id, outcome);
    var retry := UnmitigatedLoopback(t, cfg, starts, loop.id, body, guardNames, errorVariable);
    found := if retry.None? then None else Some(Violation(loop, call, branch, retry.value, errorVariable));
  }

  /** The marks one branch leaves. */
  ghost function MarksOf(
        t: RetryText, g: Graph, loop: Op, body: set<Id>, guardNames: set<string>, call: Op, branch: Op): set<Mark> {
    set reported | reported in {false, true} && MarkedBranch(t, g, loop, body, guardNames, call, branch, reported)
      :: Mark(loop.id, call.id, branch.id, reported)
  }

  /** The innermost step of analyze: one loop, one call, one branch. */
  method EvaluateBranch(
        t: RetryText, cfg: ControlFlowGraph, loop: Op, body: set<Id>, guardNames: set<string>, call: Op, branch: Op,
        start: Result, known: set<Key>, ghost marked: set<Mark>)
    returns (r: Result, seen: set<Key>, ghost marks: set<Mark>)
    requires cfg.Built() && Balanced(start, known, marked) && call.id in body
    requires Mark(loop.id, call.id, branch.id, false) !in marked && Mark(loop.id, call.id, branch.id, true) !in marked
    ensures Balanced(r, seen, marks) && r.loopsEvaluated == start.loopsEvaluated
    ensures marks == marked + MarksOf(t, cfg.graph, loop, body, guardNames, call, branch)
    ensures r.violations == start.violations + ViolationsAt(t, cfg.graph, loop, body, guardNames, call, branch)
  {
    r, seen := start, known;
    ghost var k := (loop.id, call.id, branch.id);
    ghost var more := MarksOf(t, cfg.graph, loop, body, guardNames, call, branch);
    marks := marked + more;
    var evaluated, found := FindRetry(t, cfg, loop, body, guardNames, call, branch);
    if !evaluated {
      assert more == {};
      return;
    }
    if found.None? {
      assert more == {MarkOf(k, false)};
      AddMitigated(start, known, marked, k);
      r := start.(errorBranchesEvaluated := start.errorBranchesEvaluated + 1, mitigatedPaths :=
        start.mitigatedPaths + 1);
      return;
    }
    var v := found.value;
    assert more == {MarkOf(k, false), MarkOf(k, true)};
    r := start.(errorBranchesEvaluated := start.errorBranchesEvaluated + 1);
    if KeyOf(v) !in known {
      AddViolation(start, known, marked, v);
      seen := known + {KeyOf(v)};
      r := r.(violations := start.violations + [v]);
    }
  }

  lemma AddMitigated(r: Result, seen: set<Key>, marks: set<Mark>, k: Key)
    requires Balanced(r, seen, marks) && MarkOf(k, false) !in marks
    ensures Balanced(r.(errorBranchesEvaluated := r.errorBranchesEvaluated + 1, mitigatedPaths := r.mitigatedPaths + 1),
                     seen, marks + {MarkOf(k, false)})
  {}

  lemma AddViolation(r: Result, seen: set<Key>, marks: set<Mark>, v: Violation)
    requires Balanced(r, seen, marks) && MarkOf(KeyOf(v), false) !in marks && MarkOf(KeyOf(v), true) !in marks
    ensures Balanced(r.(violations := r.violations + [v], errorBranchesEvaluated := r.errorBranchesEvaluated + 1),
                     seen + {KeyOf(v)}, marks + {MarkOf(KeyOf(v), false), MarkOf(KeyOf(v), true)})
  {
    var vs, k := r.violations + [v], KeyOf(v);
    assert vs[..|vs| - 1] == r.violations && k !in seen;
    assert marks + {MarkOf(k, false), MarkOf(k, true)} == marks + {MarkOf(k, false)} + {MarkOf(k, true)};
  }

  /** What the report has gained from some branches of a call. */
  ghost predicate AfterBranches(
        t: RetryText, g: Graph, loop: Op, body: set<Id>, guardNames: set<string>, call: Op, branches: seq<Op>,
        start: Result, marked: set<Mark>, r: Result, seen: set<Key>, marks: set<Mark>) {
    && Balanced(r, seen, marks) && r.loopsEvaluated == start.loopsEvaluated
    && r.violations == start.violations + OverBranches(t, g, loop, body, guardNames, call, branches)
    && forall m :: m in marks <==> m in marked || MarkedForCall(t, g, loop, body, guardNames, call, branches, m)
  }

  lemma NextBranch(
        t: RetryText, g: Graph, loop: Op, body: set<Id>, guardNames: set<string>, call: Op, branches: seq<Op>,
        start: Result, marked: set<Mark>, before: Result, known: set<Key>, previous: set<Mark>, branch: Op, r: Result,
        seen: set<Key>, marks: set<Mark>)
    requires AfterBranches(t, g, loop, body, guardNames, call, branches, start, marked, before, known, previous)
    requires Balanced(r, seen, marks) && r.loopsEvaluated == before.loopsEvaluated
    requires r.violations == before.violations + ViolationsAt(t, g, loop, body, guardNames, call, branch)
    requires marks == previous + MarksOf(t, g, loop, body, guardNames, call, branch)
    ensures AfterBranches(t, g, loop, body, guardNames, call, branches + [branch], start, marked, r, seen, marks)
  {
    assert (branches + [branch])[..|branches|] == branches;
  }

  lemma BranchNotYetMarked(
        t: RetryText, g: Graph, loop: Op, body: set<Id>, guardNames: set<string>, call: Op, branches: seq<Op>,
        i: nat, start: Result, marked: set<Mark>, r: Result, seen: set<Key>, marks: set<Mark>, reported: bool)
    requires UniqueIds(branches) && i < |branches|
    requires AfterBranches(t, g, loop, body, guardNames, call, branches[..i], start, marked, r, seen, marks)
    requires forall m :: m in marked ==> !(m.loop == loop.id && m.call == call.id)
    ensures Mark(loop.id, call.id, branches[i].id, reported) !in marks
  {
    MarksOtherBranch(t, g, loop, body, guardNames, call, branches, i, Mark(loop.id, call.id, branches[i].id, reported));
  }

  lemma MarksOtherBranch(
        t: RetryText, g: Graph, loop: Op, body: set<Id>, guardNames: set<string>, call: Op, branches: seq<Op>,
        i: nat, m: Mark)
    requires UniqueIds(branches) && i < |branches|
    ensures MarkedForCall(t, g, loop, body, guardNames, call, branches[..i], m) ==> m.branch != branches[i].id
  {
    if MarkedForCall(t, g, loop, body, guardNames, call, branches[..i], m) {
      var b :| b in branches[..i] && b.id == m.branch;
      var j :| 0 <= j < i && branches[j] == b;
    }
  }

  method EvaluateCall(
    t: RetryText, cfg: ControlFlowGraph, loop: Op, body: set<Id>, guardNames: set<string>, call: Op, branches: seq<Op>,
    start: Result, known: set<Key>, ghost marked: set<Mark>)
    returns (r: Result, seen: set<Key>, ghost marks: set<Mark>)
    requires cfg.Built() && Balanced(start, known, marked) && UniqueIds(branches) && call.id in body
    requires forall m :: m in marked ==> !(m.loop == loop.id && m.call == call.id)
    ensures AfterBranches(t, cfg.graph, loop, body, guardNames, call, branches, start, marked, r, seen, marks)
  {
    r, seen, marks := start, known, marked;
    for i := 0 to |branches|
      invariant
        AfterBranches(t, cfg.graph, loop, body, guardNames, call, branches[..i], start, marked, r, seen, marks)
    {
      ghost var before, keys, previous := r, seen, marks;
      BranchNotYetMarked(t, cfg.graph, loop, body, guardNames, call, branches, i, start, marked, r, seen, marks, false);
      BranchNotYetMarked(t, cfg.graph, loop, body, guardNames, call, branches, i, start, marked, r, seen, marks, true);
      r, seen, marks := EvaluateBranch(t, cfg, loop, body, guardNames, call, branches[i], r, seen, marks);
      NextBranch(t, cfg.graph, loop, body, guardNames, call, branches[..i], start, marked, before, keys, previous,
        branches[i], r, seen, marks);
      assert branches[..i + 1] == branches[..i] + [branches[i]];
    }
    assert branches[..|branches|] == branches;
  }

  /** What the report has gained from some calls of a loop. */
  ghost predicate AfterCalls(
        t: RetryText, g: Graph, loop: Op, body: set<Id>, guardNames: set<string>, calls: seq<Op>, branches: seq<Op>,
        start: Result, marked: set<Mark>, r: Result, seen: set<Key>, marks: set<Mark>) {
    && Balanced(r, seen, marks) && r.loopsEvaluated == start.loopsEvaluated
    && r.violations == start.violations + OverCalls(t, g, loop, body, guardNames, calls, branches)
    && forall m :: m in marks <==> m in marked || MarkedForLoop(t, g, loop, body, guardNames, calls, branches, m)
  }

  lemma NextCall(
        t: RetryText, g: Graph, loop: Op, body: set<Id>, guardNames: set<string>, calls: seq<Op>, branches: seq<Op>,
        start: Result, marked: set<Mark>, before: Result, known: set<Key>, previous: set<Mark>, call: Op, r: Result,
        seen: set<Key>, marks: set<Mark>)
    requires AfterCalls(t, g, loop, body, guardNames, calls, branches, start, marked, before, known, previous)
    requires call.id in body && call.kind.Call?
    requires if t.risky(call) && t.resultNames(call) != []
             then AfterBranches(t, g, loop, body, guardNames, call, branches, before, previous, r, seen, marks)
             else (r, seen, marks) == (before, known, previous)
    ensures AfterCalls(t, g, loop, body, guardNames, calls + [call], branches, start, marked, r, seen, marks)
  {
    assert (calls + [call])[..|calls|] == calls;
    forall m ensures MarkedForLoop(t, g, loop, body, guardNames, calls + [call], branches, m) <==>
                     MarkedForLoop(t, g, loop, body, guardNames, calls, branches, m) ||
                       (Eligible(t, call, body) && MarkedForCall(t, g, loop, body, guardNames, call, branches, m)) {
      CallMarks(t, g, loop, body, guardNames, calls, branches, call, m);
    }
  }

  lemma CallMarks(
        t: RetryText, g: Graph, loop: Op, body: set<Id>, guardNames: set<string>, calls: seq<Op>, branches: seq<Op>,
        call: Op, m: Mark)
    ensures MarkedForLoop(t, g, loop, body, guardNames, calls + [call], branches, m) <==>
            MarkedForLoop(t, g, loop, body, guardNames, calls, branches, m) ||
              (Eligible(t, call, body) && MarkedForCall(t, g, loop, body, guardNames, call, branches, m))
  {
    assert call in calls + [call];
  }

  lemma CallNotYetMarked(
        t: RetryText, g: Graph, loop: Op, body: set<Id>, guardNames: set<string>, calls: seq<Op>, branches: seq<Op>,
        i: nat, start: Result, marked: set<Mark>, r: Result, seen: set<Key>, marks: set<Mark>)
    requires UniqueIds(calls) && i < |calls| && forall m :: m in marked ==> m.loop != loop.id
    requires AfterCalls(t, g, loop, body, guardNames, calls[..i], branches, start, marked, r, seen, marks)
    ensures forall m :: m in marks ==> !(m.loop == loop.id && m.call == calls[i].id)
  {
    forall m | m in marks && m.loop == loop.id ensures m.call != calls[i].id {
      var c :| c in calls[..i] && MarkedForCall(t, g, loop, body, guardNames, c, branches, m);
      var j :| 0 <= j < i && calls[j] == c;
    }
  }

  method EvaluateLoop(
    t: RetryText, cfg: ControlFlowGraph, loop: Op, body: set<Id>, guardNames: set<string>, calls: seq<Op>,
    branches: seq<Op>, start: Result, known: set<Key>, ghost marked: set<Mark>)
    returns (r: Result, seen: set<Key>, ghost marks: set<Mark>)
    requires cfg.Built() && Balanced(start, known, marked) && UniqueIds(branches) && UniqueIds(calls)
    requires forall c :: c in calls ==> c.id in body && c.kind.Call?
    requires forall m :: m in marked ==> m.loop != loop.id
    ensures AfterCalls(t, cfg.graph, loop, body, guardNames, calls, branches, start, marked, r, seen, marks)
  {
    r, seen, marks := start, known, marked;
    for i := 0 to |calls|
      invariant AfterCalls(t, cfg.graph, loop, body, guardNames, calls[..i], branches, start, marked, r, seen, marks)
    {
      ghost var before, keys, previous := r, seen, marks;
      var call := calls[i];
      assert call in calls;
      if t.risky(call) && t.resultNames(call) != [] {
        CallNotYetMarked(t, cfg.graph, loop, body, guardNames, calls, branches, i, start, marked, r, seen, marks);
        r, seen, marks := EvaluateCall(t, cfg, loop, body, guardNames, call, branches, r, seen, marks);
      }
      NextCall(t, cfg.graph, loop, body, guardNames, calls[..i], branches, start, marked, before, keys, previous, call,
        r, seen, marks);
      assert calls[..i + 1] == calls[..i] + [call];
    }
    assert calls[..|calls|] == calls;
  }

  function ByLine(a: Op, b: Op): bool {
    a.line < b.line || (a.line == b.line && a.id <= b.id)
  }

  ghost function BodySet(g: Graph, loop: Id): set<Id> {
    set n | n in g.ops && InBody(g, loop, n)
  }

  /** A violation is due: an unbounded loop of the scope, a risky call in its body whose error
      result a branch of the body checks, and an immediate unmitigated retry from that branch. */
  ghost predicate MarkedInScope(t: RetryText, g: Graph, operations: seq<Op>, m: Mark) {
    exists l :: l in operations && l.kind.Loop? && t.unbounded(l) && MarkedForOps(t, g, operations, l, m)
  }

  ghost predicate MarkedForOps(t: RetryText, g: Graph, operations: seq<Op>, l: Op, m: Mark) {
    var body := BodySet(g, l.id);
    MarkedForLoop(t, g, l, body, AssignedNames(t, operations, body), operations, BranchesOf(operations), m)
  }

  function BranchesOf(operations: seq<Op>): seq<Op> {
    Filter((op: Op) => op.kind.Branch?, operations)
  }

  lemma SortKeepsUnique(leq: (Op, Op) -> bool, ops: seq<Op>)
    requires UniqueIds(ops)
    ensures UniqueIds(Sort(leq, ops))
  {
    var r := Sort(leq, ops);
    SortKeepsElements(leq, ops);
    forall i, j | 0 <= i < j < |r| ensures r[i].id != r[j].id {
      if r[i].id == r[j].id {
        assert r[i] in r && r[j] in r;
        UniqueLookup(ops, r[i]);
        UniqueLookup(ops, r[j]);
        TwiceInSeq(r, i, j);
        MultiplicityAtMostOne(ops, r[i]);
      }
    }
  }

  /** One iteration of the loop over loops. */
  method EvaluateOneLoop(t: RetryText, cfg: ControlFlowGraph, operations: seq<Op>, loop: Op, start: Result,
          known: set<Key>, ghost marked: set<Mark>)
    returns (r: Result, seen: set<Key>, ghost marks: set<Mark>)
    requires cfg.Built() && Balanced(start, known, marked) && UniqueIds(operations)
    requires forall m :: m in marked ==> m.loop != loop.id
    ensures Balanced(r, seen, marks) && r.loopsEvaluated == start.loopsEvaluated + 1
    ensures forall m :: m in marks <==> m in marked || MarkedForOps(t, cfg.graph, operations, loop, m)
    ensures r.violations == start.violations + LoopViolations(t, cfg.graph, operations, loop)
  {
    var body := LoopBody(cfg, loop.id);
    assert body == BodySet(cfg.graph, loop.id) by { BodyInside(cfg.graph, loop.id); }
    var guardNames := AssignedNames(t, operations, body);
    var calls := CallsIn(operations, body);
    var branches := BranchesOf(operations);
    FilterKeepsUnique((op: Op) => op.id in body && op.kind.Call?, operations);
    FilterKeepsUnique((op: Op) => op.kind.Branch?, operations);
    SortKeepsUnique(ByLine, Filter((op: Op) => op.id in body && op.kind.Call?, operations));
    SortKeepsElements(ByLine, Filter((op: Op) => op.id in body && op.kind.Call?, operations));
    r, seen, marks :=
      EvaluateLoop(t, cfg, loop, body, guardNames, calls, branches, start.(loopsEvaluated := start.loopsEvaluated + 1),
        known, marked);
    forall m ensures MarkedForLoop(t, cfg.graph, loop, body, guardNames, calls, branches, m) <==>
                     MarkedForLoop(t, cfg.graph, loop, body, guardNames, operations, branches, m) {
      SameCalls(t, cfg.graph, loop, body, guardNames, calls, operations, branches, m);
    }
  }

  lemma SameCalls(
        t: RetryText, g: Graph, loop: Op, body: set<Id>, guardNames: set<string>, calls: seq<Op>,
        operations: seq<Op>, branches: seq<Op>, m: Mark)
    requires forall c :: c in calls <==> c in operations && c.id in body && c.kind.Call?
    ensures MarkedForLoop(t, g, loop, body, guardNames, calls, branches, m) <==>
            MarkedForLoop(t, g, loop, body, guardNames, operations, branches, m)
  {}

  lemma BodyInside(g: Graph, loop: Id)
    requires WellFormed(g)
    ensures forall n: Id :: InBody(g, loop, n) ==> n in g.ops
  {
    forall n: Id | InBody(g, loop, n) ensures n in g.ops {
      if InCore(g, loop, n) {
        var p :| WalkFromTo(BodyRel(g), p, loop, n) && |p| > 1;
        var i, j := |p| - 2, |p| - 1;
        assert (p[i], p[j]) in BodyRel(g);
      }
    }
  }

  function LoopsOf(operations: seq<Op>): seq<Op> {
    Sort(ByLine, Filter((op: Op) => op.kind.Loop?, operations))
  }

  lemma LoopsOfAre(operations: seq<Op>)
    requires UniqueIds(operations)
    ensures UniqueIds(LoopsOf(operations))
    ensures forall l :: l in LoopsOf(operations) <==> l in operations && l.kind.Loop?
  {
    FilterKeepsUnique((op: Op) => op.kind.Loop?, operations);
    SortKeepsUnique(ByLine, Filter((op: Op) => op.kind.Loop?, operations));
    SortKeepsElements(ByLine, Filter((op: Op) => op.kind.Loop?, operations));
  }

  function CountUnbounded(t: RetryText, loops: seq<Op>): nat
    decreases |loops|
  {
    if loops == [] then 0
    else CountUnbounded(t, loops[..|loops| - 1]) + (if t.unbounded(loops[|loops| - 1]) then 1 else 0)
  }

  /** What the report has gained from some loops of a scope. */
  ghost predicate AfterLoops(
        t: RetryText, g: Graph, operations: seq<Op>, loops: seq<Op>, start: Result, marked: set<Mark>, r: Result,
        seen: set<Key>, marks: set<Mark>) {
    && Balanced(r, seen, marks) && r.loopsEvaluated == start.loopsEvaluated + CountUnbounded(t, loops)
    && r.violations == start.violations + OverLoops(t, g, operations, loops)
    && forall m :: m in marks <==> m in marked || MarkedForSome(t, g, operations, loops, m)
  }

  lemma NextLoop(
        t: RetryText, g: Graph, operations: seq<Op>, loops: seq<Op>, start: Result, marked: set<Mark>, before: Result,
        known: set<Key>, previous: set<Mark>, loop: Op, r: Result, seen: set<Key>, marks: set<Mark>)
    requires AfterLoops(t, g, operations, loops, start, marked, before, known, previous)
    requires if !t.unbounded(loop) then (r, seen, marks) == (before, known, previous)
             else && Balanced(r, seen, marks) && r.loopsEvaluated == before.loopsEvaluated + 1
                  && r.violations == before.violations + LoopViolations(t, g, operations, loop)
                  && forall m :: m in marks <==> m in previous || MarkedForOps(t, g, operations, loop, m)
    ensures AfterLoops(t, g, operations, loops + [loop], start, marked, r, seen, marks)
  {
    LongerList(t, g, operations, loops, loop);
    forall m ensures MarkedForSome(t, g, operations, loops + [loop], m) <==>
                     MarkedForSome(t, g, operations, loops, m) ||
                       (t.unbounded(loop) && MarkedForOps(t, g, operations, loop, m)) {
      LoopMarks(t, g, operations, loops, loop, m);
    }
  }

  lemma LoopMarks(t: RetryText, g: Graph, operations: seq<Op>, loops: seq<Op>, loop: Op, m: Mark)
    ensures MarkedForSome(t, g, operations, loops + [loop], m) <==>
            MarkedForSome(t, g, operations, loops, m) ||
              (t.unbounded(loop) && MarkedForOps(t, g, operations, loop, m))
  {
    assert loop in loops + [loop];
  }

  lemma LongerList(
        t: RetryText, g: Graph, operations: seq<Op>, loops: seq<Op>, loop: Op)
    ensures CountUnbounded(t, loops + [loop]) == CountUnbounded(t, loops) + (if t.unbounded(loop) then 1 else 0)
    ensures OverLoops(t, g, operations, loops + [loop]) ==
            OverLoops(t, g, operations, loops) +
            (if t.unbounded(loop) then LoopViolations(t, g, operations, loop) else [])
  {
    assert (loops + [loop])[..|loops|] == loops;
  }

  /** The loop over loops. */
  method EvaluateLoops(t: RetryText, cfg: ControlFlowGraph, operations: seq<Op>, loops: seq<Op>, start: Result,
          known: set<Key>, ghost marked: set<Mark>)
    returns (r: Result, seen: set<Key>, ghost marks: set<Mark>)
    requires cfg.Built() && Balanced(start, known, marked) && UniqueIds(operations) && UniqueIds(loops)
    requires forall l :: l in loops ==> l in operations
    requires forall m, op :: m in marked && op in operations ==> m.loop != op.id
    ensures AfterLoops(t, cfg.graph, operations, loops, start, marked, r, seen, marks)
  {
    r, seen, marks := start, known, marked;
    for i := 0 to |loops|
      invariant AfterLoops(t, cfg.graph, operations, loops[..i], start, marked, r, seen, marks)
    {
      assert loops[..i + 1] == loops[..i] + [loops[i]] && loops[i] in loops;
      r, seen, marks := EvaluateNextLoop(t, cfg, operations, loops, i, start, marked, r, seen, marks);
    }
    assert loops[..|loops|] == loops;
  }

  /** The loop's body: only unbounded loops are evaluated. */
  method EvaluateNextLoop(
        t: RetryText, cfg: ControlFlowGraph, operations: seq<Op>, loops: seq<Op>, i: nat, ghost start: Result,
        ghost marked: set<Mark>, before: Result, known: set<Key>, ghost previous: set<Mark>)
    returns (r: Result, seen: set<Key>, ghost marks: set<Mark>)
    requires cfg.Built() && UniqueIds(operations) && UniqueIds(loops) && i < |loops| && loops[i] in operations
    requires forall m, op :: m in marked && op in operations ==> m.loop != op.id
    requires AfterLoops(t, cfg.graph, operations, loops[..i], start, marked, before, known, previous)
    ensures AfterLoops(t, cfg.graph, operations, loops[..i] + [loops[i]], start, marked, r, seen, marks)
  {
    r, seen, marks := before, known, previous;
    if t.unbounded(loops[i]) {
      LoopsNotYetSeen(t, cfg.graph, operations, loops, i, start, marked, r, seen, marks);
      r, seen, marks := EvaluateOneLoop(t, cfg, operations, loops[i], r, seen, marks);
    }
    NextLoop(t, cfg.graph, operations, loops[..i], start, marked, before, known, previous, loops[i], r, seen, marks);
  }

  lemma LoopsNotYetSeen(
        t: RetryText, g: Graph, operations: seq<Op>, loops: seq<Op>, i: nat, start: Result, marked: set<Mark>,
        r: Result, seen: set<Key>, marks: set<Mark>)
    requires UniqueIds(loops) && i < |loops| && loops[i] in operations
    requires forall m, op :: m in marked && op in operations ==> m.loop != op.id
    requires AfterLoops(t, g, operations, loops[..i], start, marked, r, seen, marks)
    ensures forall m :: m in marks ==> m.loop != loops[i].id
  {
    forall m | m in marks ensures m.loop != loops[i].id {
      LoopNotYetSeen(t, g, operations, loops, i, m);
    }
  }

  method EvaluateScope(t: RetryText, cfg: ControlFlowGraph, operations: seq<Op>, start: Result, known: set<Key>,
          ghost marked: set<Mark>)
    returns (r: Result, seen: set<Key>, ghost marks: set<Mark>)
    requires cfg.Built() && Balanced(start, known, marked) && UniqueIds(operations)
    requires forall m, op :: m in marked && op in operations ==> m.loop != op.id
    ensures Balanced(r, seen, marks) && r.loopsEvaluated == start.loopsEvaluated +
            CountUnbounded(t, LoopsOf(operations))
    ensures r.violations == start.violations + OverLoops(t, cfg.graph, operations, LoopsOf(operations))
    ensures forall m :: m in marks <==> m in marked || MarkedInScope(t, cfg.graph, operations, m)
  {
    var loops := LoopsOf(operations);
    LoopsOfAre(operations);
    r, seen, marks := EvaluateLoops(t, cfg, operations, loops, start, known, marked);
    forall m ensures MarkedForSome(t, cfg.graph, operations, loops, m) <==> MarkedInScope(t, cfg.graph, operations, m) {
      SameLoops(t, cfg.graph, operations, loops, m);
    }
  }

  lemma SameLoops(t: RetryText, g: Graph, operations: seq<Op>, loops: seq<Op>, m: Mark)
    requires forall l :: l in loops <==> l in operations && l.kind.Loop?
    ensures MarkedForSome(t, g, operations, loops, m) <==> MarkedInScope(t, g, operations, m)
  {
    if MarkedInScope(t, g, operations, m) {
      var l :| l in operations && l.kind.Loop? && t.unbounded(l) && MarkedForOps(t, g, operations, l, m);
      assert l in loops;
    }
  }

  ghost predicate MarkedForSome(t: RetryText, g: Graph, operations: seq<Op>, loops: seq<Op>, m: Mark) {
    exists l :: l in loops && t.unbounded(l) && MarkedForOps(t, g, operations, l, m)
  }

  lemma LoopNotYetSeen(t: RetryText, g: Graph, operations: seq<Op>, loops: seq<Op>, i: nat, m: Mark)
    requires UniqueIds(loops) && i < |loops|
    ensures MarkedForSome(t, g, operations, loops[..i], m) ==> m.loop != loops[i].id
  {
    if MarkedForSome(t, g, operations, loops[..i], m) {
      var l :| l in loops[..i] && t.unbounded(l) && MarkedForOps(t, g, operations, l, m);
      assert m.loop == l.id;
      var j :| 0 <= j < i && loops[j] == l;
    }
  }

  function ScopeOps(ir: SemanticIR, languages: set<string>, scope: Id): (r: seq<Op>)
    ensures forall op :: op in r <==> op in ir.operations && Kept(op, languages) && op.scope == scope
  {
    Filter((op: Op) => op.scope == scope, KeptOps(ir.operations, languages))
  }

  function ScopesOf(ir: SemanticIR, languages: set<string>): set<Id> {
    set op | op in KeptOps(ir.operations, languages) && op.scope != NO_ID :: op.scope
  }

  /** The unbounded loops of some scopes. */
  function LoopsIn(t: RetryText, ir: SemanticIR, languages: set<string>, scopes: seq<Id>): nat
    decreases |scopes|
  {
    if scopes == [] then 0
    else
      LoopsIn(t, ir, languages, scopes[..|scopes| - 1]) +
      CountUnbounded(t, LoopsOf(ScopeOps(ir, languages, scopes[|scopes| - 1])))
  }

  /** The (loop, call, branch) triples of a program to be evaluated, and those to be reported. */
  ghost function DueMarks(t: RetryText, ir: SemanticIR, languages: set<string>, reported: bool): set<Mark> {
    set l, c, b | l in ir.operations && c in ir.operations && b in ir.operations &&
                  Due(t, ir, languages, Mark(l.id, c.id, b.id, reported))
      :: Mark(l.id, c.id, b.id, reported)
  }

  lemma DueMarksAre(t: RetryText, ir: SemanticIR, languages: set<string>, m: Mark)
    ensures m in DueMarks(t, ir, languages, m.reported) <==> Due(t, ir, languages, m)
  {
    if Due(t, ir, languages, m) {
      var scope: Id :| scope != NO_ID && DueInScope(t, ir, languages, scope, m);
      var operations := ScopeOps(ir, languages, scope);
      var l, c, b := DueOps(t, GraphOfIr(ir, languages), operations, m);
      DueMarkListed(t, ir, languages, l, c, b, m);
    }
  }

  lemma DueMarkListed(t: RetryText, ir: SemanticIR, languages: set<string>, l: Op, c: Op, b: Op, m: Mark)
    requires l in ir.operations && c in ir.operations && b in ir.operations
    requires m == Mark(l.id, c.id, b.id, m.reported) && Due(t, ir, languages, m)
    ensures m in DueMarks(t, ir, languages, m.reported)
  {}

  lemma DueOps(t: RetryText, g: Graph, operations: seq<Op>, m: Mark) returns (l: Op, c: Op, b: Op)
    requires MarkedInScope(t, g, operations, m)
    ensures l in operations && c in operations && b in operations && (m.loop, m.call, m.branch) == (l.id, c.id, b.id)
  {
    l :| l in operations && l.kind.Loop? && t.unbounded(l) && MarkedForOps(t, g, operations, l, m);
    var body := BodySet(g, l.id);
    var guardNames := AssignedNames(t, operations, body);
    c :| c in operations && Eligible(t, c, body) &&
         MarkedForCall(t, g, l, body, guardNames, c, BranchesOf(operations), m);
    b :| b in BranchesOf(operations) && b.id == m.branch && MarkedBranch(t, g, l, body, guardNames, c, b, m.reported);
  }

  lemma {:induction false} ReportedMarks(seen: set<Key>)
    ensures |set k | k in seen :: MarkOf(k, true)| == |seen|
    decreases |seen|
  {
    var image := set k | k in seen :: MarkOf(k, true);
    if seen == {} {
      assert image == {};
    } else {
      var k :| k in seen;
      var rest := set j | j in seen - {k} :: MarkOf(j, true);
      ReportedMarks(seen - {k});
      assert image == rest + {MarkOf(k, true)} && MarkOf(k, true) !in rest;
    }
  }

  lemma {:induction false} KeysAre(violations: seq<Violation>)
    ensures forall k :: k in KeysOf(violations) <==> Reported(violations, k)
    decreases |violations|
  {
    if violations != [] {
      var n := |violations| - 1;
      KeysAre(violations[..n]);
      assert violations == violations[..n] + [violations[n]];
      forall k ensures k in KeysOf(violations) <==> Reported(violations, k) {
        assert Reported(violations, k) <==> Reported(violations[..n], k) || k == KeyOf(violations[n]);
      }
    }
  }

  lemma {:induction false} KeysAreDistinct(violations: seq<Violation>)
    ensures |KeysOf(violations)| <= |violations|
    ensures |KeysOf(violations)| == |violations| ==> DistinctKeys(violations)
    decreases |violations|
  {
    if violations != [] {
      var n := |violations| - 1;
      var rest, keys, k := violations[..n], KeysOf(violations[..n]), KeyOf(violations[n]);
      KeysAreDistinct(rest);
      assert |keys + {k}| == if k in keys then |keys| else |keys| + 1 by {
        if k in keys { assert keys + {k} == keys; }
      }
      if k !in keys && DistinctKeys(rest) { DistinctOneMore(violations, n); }
    }
  }

  lemma DistinctOneMore(violations: seq<Violation>, n: nat)
    requires |violations| == n + 1 && DistinctKeys(violations[..n])
    requires KeyOf(violations[n]) !in KeysOf(violations[..n])
    ensures DistinctKeys(violations)
  {
    var rest := violations[..n];
    KeysAre(rest);
    forall i, j | 0 <= i < j < |violations| ensures KeyOf(violations[i]) != KeyOf(violations[j]) {
      assert rest[i] == violations[i] && rest[i] in rest;
      assert Reported(rest, KeyOf(rest[i]));
      if j < n { assert rest[j] == violations[j]; }
    }
  }

  /** Split by kind, the marks count the evaluated and the reported triples. */
  lemma CountMarks(r: Result, seen: set<Key>, marks: set<Mark>, evaluated: set<Mark>, reported: set<Mark>)
    requires Balanced(r, seen, marks)
    requires forall m :: m in marks <==> m in (if m.reported then reported else evaluated)
    requires (forall m :: m in evaluated ==> !m.reported) && forall m :: m in reported ==> m.reported
    ensures r.errorBranchesEvaluated == |evaluated| && |r.violations| == |reported|
  {
    ReportedMarks(seen);
    forall m | m in reported ensures MarkOf((m.loop, m.call, m.branch), true) == m {}
    assert reported == set k | k in seen :: MarkOf(k, true);
    assert marks == evaluated + reported && evaluated * reported == {};
  }

  ghost predicate DistinctKeys(violations: seq<Violation>) {
    forall i, j :: 0 <= i < j < |violations| ==> KeyOf(violations[i]) != KeyOf(violations[j])
  }

  /** analyze: exactly the due violations are reported, each once and with a genuine witness,
      every unbounded loop is counted, and so is every (loop, call, branch) triple whose branch
      checks an error result of the call, which is either a violation or a mitigated path. */
  method Analyze(t: RetryText, ir: SemanticIR, languages: set<string>) returns (r: Result)
    requires UniqueIds(ir.operations)
    ensures r.errorBranchesEvaluated == |DueMarks(t, ir, languages, false)|
    ensures |r.violations| == |DueMarks(t, ir, languages, true)|
    ensures r.mitigatedPaths == r.errorBranchesEvaluated - |r.violations|
    ensures r.loopsEvaluated == LoopsIn(t, ir, languages, SortedSet(ScopesOf(ir, languages)))
    ensures r.violations == ViolationsOf(t, ir, languages) && DistinctKeys(r.violations)
    ensures forall k :: Reported(r.violations, k) <==> Due(t, ir, languages, MarkOf(k, true))
  {
    var cfg := FromIr(ir, languages);
    var scopes := SortedSet(ScopesOf(ir, languages));
    ghost var seen, marks;
    r, seen, marks := EvaluateScopes(t, cfg, ir, languages, scopes);
    ghost var evaluated, reported := DueMarks(t, ir, languages, false), DueMarks(t, ir, languages, true);
    forall m ensures m in marks <==> m in (if m.reported then reported else evaluated) {
      DueSomewhere(t, ir, languages, scopes, m);
      DueMarksAre(t, ir, languages, m);
    }
    CountMarks(r, seen, marks, evaluated, reported);
    KeysAre(r.violations);
    KeysAreDistinct(r.violations);
    forall k ensures Reported(r.violations, k) <==> Due(t, ir, languages, MarkOf(k, true)) {
      assert Reported(r.violations, k) <==> MarkOf(k, true) in marks;
      DueMarksAre(t, ir, languages, MarkOf(k, true));
    }
  }

  /** The report once some scopes are done. */
  ghost predicate Scanned(
        t: RetryText, ir: SemanticIR, languages: set<string>, scopes: seq<Id>, r: Result, seen: set<Key>,
        marks: set<Mark>) {
    && Balanced(r, seen, marks) && r.loopsEvaluated == LoopsIn(t, ir, languages, scopes)
    && r.violations == OverScopes(t, GraphOfIr(ir, languages), ir, languages, scopes)
    && MarksDue(t, ir, languages, scopes, marks)
  }

  ghost predicate MarksDue(t: RetryText, ir: SemanticIR, languages: set<string>, scopes: seq<Id>, marks: set<Mark>) {
    forall m :: m in marks <==> DueIn(t, ir, languages, scopes, m)
  }

  method EvaluateScopes(t: RetryText, cfg: ControlFlowGraph, ir: SemanticIR, languages: set<string>, scopes: seq<Id>)
    returns (r: Result, seen: set<Key>, ghost marks: set<Mark>)
    requires cfg.Built() && cfg.graph == GraphOfIr(ir, languages) && UniqueIds(ir.operations)
    requires Ascending(scopes)
    ensures Scanned(t, ir, languages, scopes, r, seen, marks)
  {
    r, seen, marks := Result([], 0, 0, 0), {}, {};
    for i := 0 to |scopes|
      invariant Scanned(t, ir, languages, scopes[..i], r, seen, marks)
    {
      assert scopes[..i + 1] == scopes[..i] + [scopes[i]];
      r, seen, marks := EvaluateNextScope(t, cfg, ir, languages, scopes[..i], scopes[i], r, seen, marks);
    }
    assert scopes[..|scopes|] == scopes;
  }

  ghost predicate Reported(violations: seq<Violation>, k: Key) {
    exists v :: v in violations && KeyOf(v) == k
  }

  ghost predicate DueInScope(t: RetryText, ir: SemanticIR, languages: set<string>, scope: Id, m: Mark) {
    MarkedInScope(t, GraphOfIr(ir, languages), ScopeOps(ir, languages, scope), m)
  }

  ghost predicate DueIn(t: RetryText, ir: SemanticIR, languages: set<string>, scopes: seq<Id>, m: Mark) {
    exists scope :: scope in scopes && DueInScope(t, ir, languages, scope, m)
  }

  ghost predicate Due(t: RetryText, ir: SemanticIR, languages: set<string>, m: Mark) {
    exists scope: Id :: scope != NO_ID && DueInScope(t, ir, languages, scope, m)
  }

  lemma DueSomewhere(t: RetryText, ir: SemanticIR, languages: set<string>, scopes: seq<Id>, m: Mark)
    requires forall scope: Id :: scope in scopes <==>
               scope != NO_ID && exists op :: op in KeptOps(ir.operations, languages) && op.scope == scope
    ensures DueIn(t, ir, languages, scopes, m) <==> Due(t, ir, languages, m)
  {
    if Due(t, ir, languages, m) {
      var scope: Id :| scope != NO_ID && DueInScope(t, ir, languages, scope, m);
      var l :| l in ScopeOps(ir, languages, scope) && l.kind.Loop?;
      assert scope in scopes;
    }
  }

  method EvaluateNextScope(
        t: RetryText, cfg: ControlFlowGraph, ir: SemanticIR, languages: set<string>, ghost before: seq<Id>,
        scope: Id, start: Result, known: set<Key>, ghost marked: set<Mark>)
    returns (r: Result, seen: set<Key>, ghost marks: set<Mark>)
    requires cfg.Built() && cfg.graph == GraphOfIr(ir, languages) && UniqueIds(ir.operations)
    requires Scanned(t, ir, languages, before, start, known, marked) && scope !in before
    ensures Scanned(t, ir, languages, before + [scope], r, seen, marks)
  {
    var operations := ScopeOps(ir, languages, scope);
    ScopeOpsUnique(ir, languages, scope);
    OtherScopesMarks(t, ir, languages, before, scope, start, known, marked);
    r, seen, marks := EvaluateScope(t, cfg, operations, start, known, marked);
    LoopsInOneMore(t, ir, languages, before, scope);
    OverOneMoreScope(t, GraphOfIr(ir, languages), ir, languages, before, scope);
    ScopeMarks(t, ir, languages, before, scope, marked, marks);
  }

  lemma OverOneMoreScope(
        t: RetryText, g: Graph, ir: SemanticIR, languages: set<string>, before: seq<Id>, scope: Id)
    ensures OverScopes(t, g, ir, languages, before + [scope]) ==
            OverScopes(t, g, ir, languages, before) +
              OverLoops(t, g, ScopeOps(ir, languages, scope), LoopsOf(ScopeOps(ir, languages, scope)))
  {
    assert (before + [scope])[..|before|] == before;
  }

  lemma LoopsInOneMore(t: RetryText, ir: SemanticIR, languages: set<string>, before: seq<Id>, scope: Id)
    ensures LoopsIn(t, ir, languages, before + [scope]) ==
            LoopsIn(t, ir, languages, before) + CountUnbounded(t, LoopsOf(ScopeOps(ir, languages, scope)))
  {
    assert (before + [scope])[..|before|] == before;
  }

  lemma OtherScopesMarks(
        t: RetryText, ir: SemanticIR, languages: set<string>, before: seq<Id>, scope: Id, r: Result, seen: set<Key>,
        marks: set<Mark>)
    requires UniqueIds(ir.operations) && Scanned(t, ir, languages, before, r, seen, marks) && scope !in before
    ensures forall m, op :: m in marks && op in ScopeOps(ir, languages, scope) ==> m.loop != op.id
  {
    forall m, op | m in marks && op in ScopeOps(ir, languages, scope) ensures m.loop != op.id {
      var other :| other in before && DueInScope(t, ir, languages, other, m);
      KeyLoopInScope(t, GraphOfIr(ir, languages), ScopeOps(ir, languages, other), m, ir.operations, op);
    }
  }

  lemma ScopeMarks(
        t: RetryText, ir: SemanticIR, languages: set<string>, before: seq<Id>, scope: Id, marked: set<Mark>,
        marks: set<Mark>)
    requires MarksDue(t, ir, languages, before, marked)
    requires forall m :: m in marks <==>
               m in marked || MarkedInScope(t, GraphOfIr(ir, languages), ScopeOps(ir, languages, scope), m)
    ensures MarksDue(t, ir, languages, before + [scope], marks)
  {
    assert forall x :: x in before + [scope] <==> x in before || x == scope;
    forall m ensures m in marks <==> DueIn(t, ir, languages, before + [scope], m) {
      assert DueInScope(t, ir, languages, scope, m) <==>
             MarkedInScope(t, GraphOfIr(ir, languages), ScopeOps(ir, languages, scope), m);
    }
  }

  lemma ScopeOpsUnique(ir: SemanticIR, languages: set<string>, scope: Id)
    requires UniqueIds(ir.operations)
    ensures UniqueIds(ScopeOps(ir, languages, scope))
  {
    FilterKeepsUnique((op: Op) => Kept(op, languages), ir.operations);
    FilterKeepsUnique((op: Op) => op.scope == scope, KeptOps(ir.operations, languages));
  }

  lemma KeyLoopInScope(t: RetryText, g: Graph, scopeOps: seq<Op>, m: Mark, all: seq<Op>, op: Op)
    requires UniqueIds(all) && op in all && (forall o :: o in scopeOps ==> o in all) && op !in scopeOps
    requires MarkedInScope(t, g, scopeOps, m)
    ensures m.loop != op.id
  {
    var l :| l in scopeOps && l.kind.Loop? && t.unbounded(l) && MarkedForOps(t, g, scopeOps, l, m);
    UniqueLookup(all, l);
    UniqueLookup(all, op);
  }
}
