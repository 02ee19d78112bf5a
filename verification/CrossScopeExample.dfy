/** A proven pair with an unguarded run: in a function that begins with a loop, no operation of the body
    is an entry of the scope, and dominance by the entries says nothing. */
module CrossScopeExample {
  import opened Sequences
  import opened Walks
  import opened Ir
  import opened ControlFlow
  import opened IcfgRuns
  import opened IcfgSearch
  import opened Icfg
  import opened IcfgHosts
  import opened Programs
  import opened StateMachine

  // main: f().  f: for { if a { if b { return } } else { log(); log() }; act() }

  function LoopedOp(id: Id, kind: OpKind, scope: Id): Op {
    Op(id, kind, "go", scope, id, id, "", "", NO_ID, [], [])
  }

  const EVENT := LoopedOp(1, Call, 10)
  const GUARD := LoopedOp(4, Branch, 2)
  const ACTION := LoopedOp(5, Update, 2)

  predicate IsLooped(ir: SemanticIR) {
    && ir.operations == [
         EVENT, LoopedOp(2, OpKind.Function, 2), LoopedOp(3, OpKind.Loop, 2), GUARD, ACTION,
         LoopedOp(6, OpKind.Return, 2),
         LoopedOp(7, OpKind.Update, 2), LoopedOp(8, OpKind.Update, 2), LoopedOp(9, OpKind.Branch, 2)]
    && ir.edges == [
         Edge(1, 2, EdgeKind.Calls, ""), Edge(2, 3, EdgeKind.Contains, ""), Edge(3, 9, EdgeKind.Body, ""),
         Edge(9, 4, EdgeKind.TrueBranch, ""), Edge(9, 7, EdgeKind.FalseBranch, ""), Edge(4, 6, EdgeKind.TrueBranch, ""),
         Edge(4, 5, EdgeKind.FalseBranch, ""), Edge(7, 8, EdgeKind.Next, ""), Edge(8, 5, EdgeKind.Next, ""),
         Edge(5, 3, EdgeKind.LoopBack, "")]
  }

  /** Every operation leads to the guard or the action no faster than this. */
  function DistanceToAction(id: Id): nat {
    match id
    case 1 => 5
    case 2 => 4
    case 3 => 3
    case 9 => 2
    case 7 => 2
    case 4 => 1
    case 8 => 1
    case _ => 0
  }

  /** What one edge of the program may be. */
  predicate LoopedEdge(e: Edge) {
    && (IsControlFlow(e.kind) ==> e.source != 1 && e.source != 2 && e.source != 6 && e.target != 2)
    && (e.kind.Calls? ==> e.source == 1 && e.target == 2)
    && (IsControlFlow(e.kind) && e.source == 3 ==> e.target == 9)
    && (IsControlFlow(e.kind) && e.source == 9 ==> e.target == 4 || e.target == 7)
    && (e.source == 4 && e.kind.TrueBranch? ==> e.target == 6)
    && DistanceToAction(e.source) <= DistanceToAction(e.target) + 1
  }

  lemma LoopedEdges(ir: SemanticIR)
    requires IsLooped(ir)
    ensures Numbered(ir.operations) && forall e :: e in ir.edges ==> LoopedEdge(e)
  {
    var edges := ir.edges;
    assert LoopedEdge(edges[0]) && LoopedEdge(edges[1]) && LoopedEdge(edges[2]) && LoopedEdge(edges[3]) &&
           LoopedEdge(edges[4]);
    assert LoopedEdge(edges[5]) && LoopedEdge(edges[6]) && LoopedEdge(edges[7]) && LoopedEdge(edges[8]) &&
           LoopedEdge(edges[9]);
    forall e | e in edges ensures LoopedEdge(e) {
      var k :| 0 <= k < |edges| && edges[k] == e;
    }
  }

  ghost predicate LoopedArcs(arcs: set<Arc>) {
    && Arc(3, 9, Body) in arcs && Arc(9, 4, TrueBranch) in arcs && Arc(9, 7, FalseBranch) in arcs
    && Arc(4, 6, TrueBranch) in arcs && Arc(4, 5, FalseBranch) in arcs && Arc(7, 8, Next) in arcs
    && Arc(8, 5, Next) in arcs && Arc(5, 3, LoopBack) in arcs
  }

  ghost predicate LoopedRaw(ops: map<Id, Op>, edges: seq<Edge>) {
    && RawEdge(ops, edges, 3, 9) && RawEdge(ops, edges, 9, 4) && RawEdge(ops, edges, 9, 7) && RawEdge(ops, edges, 4, 5)
    && RawEdge(ops, edges, 7, 8) && RawEdge(ops, edges, 8, 5)
  }

  lemma LoopedScope(ir: SemanticIR)
    requires IsLooped(ir)
    ensures |ir.operations| == 9 && forall i :: 1 <= i < 9 ==> ir.operations[i].scope == 2
    ensures forall k :: 2 <= k < |ir.edges| ==>
              IsControlFlow(ir.edges[k].kind) && 2 <= ir.edges[k].source <= 9 && 2 <= ir.edges[k].target <= 9
  {}

  lemma LoopedAdmitted(ir: SemanticIR, ops: map<Id, Op>)
    requires IsLooped(ir) && LooksUp(ops, ir.operations)
    ensures forall k :: 2 <= k < |ir.edges| ==> Admitted(ops, ir.edges[k])
  {
    LoopedScope(ir);
    AllAdmittedFrom(ir.operations, ops, ir.edges);
  }

  lemma AllAdmittedFrom(operations: seq<Op>, ops: map<Id, Op>, edges: seq<Edge>)
    requires LooksUp(ops, operations) && |operations| == 9 && forall i :: 1 <= i < 9 ==> operations[i].scope == 2
    requires forall k :: 2 <= k < |edges| ==>
               IsControlFlow(edges[k].kind) && 2 <= edges[k].source <= 9 && 2 <= edges[k].target <= 9
    ensures forall k :: 2 <= k < |edges| ==> Admitted(ops, edges[k])
  {}

  lemma LoopedCall(ir: SemanticIR, ops: map<Id, Op>)
    requires IsLooped(ir) && LooksUp(ops, ir.operations)
    ensures CallTarget(ops, ir.edges, false, 1, 2)
  {
    assert ir.edges[0] in ir.edges && IsCallsEdge(ops, false, ir.edges[0]);
  }

  lemma LoopedEntry(ir: SemanticIR, ops: map<Id, Op>)
    requires IsLooped(ir) && LooksUp(ops, ir.operations)
    ensures EntryOf(ops, ir.edges, 2) == 3
  {
    assert IsEntryEdge(ops, ir.edges[1]) && ir.edges[1].source == 2 && ir.edges[1] in ir.edges;
    forall e | e in ir.edges && IsEntryEdge(ops, e) && e.source == 2 ensures e.target == 3 {}
  }

  lemma LoopedFlow(ir: SemanticIR, ops: map<Id, Op>, arcs: set<Arc>)
    requires IsLooped(ir) && (forall k :: 2 <= k < |ir.edges| ==> Admitted(ops, ir.edges[k]))
    requires forall e :: e in ir.edges && Admitted(ops, e) ==> ArcOf(e) in arcs
    ensures LoopedArcs(arcs)
  {
    var edges := ir.edges;
    assert edges[2] in edges && edges[3] in edges && edges[4] in edges && edges[5] in edges;
    assert edges[6] in edges && edges[7] in edges && edges[8] in edges && edges[9] in edges;
  }

  lemma LoopedRawEdges(ir: SemanticIR, ops: map<Id, Op>)
    requires IsLooped(ir) && forall k :: 2 <= k < |ir.edges| ==> Admitted(ops, ir.edges[k])
    ensures LoopedRaw(ops, ir.edges)
  {
    var edges := ir.edges;
    assert edges[2] in edges && edges[3] in edges && edges[4] in edges;
    assert edges[6] in edges && edges[7] in edges && edges[8] in edges;
  }

  /** The graph of the function: nothing enters 2, nothing leaves 2 or 6, the branch 4 goes to 6 on true. */
  ghost predicate LoopedGraph(g: Graph) {
    && WellFormed(g) && LoopedArcs(g.arcs) && (forall id: Id :: id in g.ops <==> 1 <= id <= 9)
    && (forall id: Id :: 2 <= id <= 9 ==> g.ops[id].scope == 2) && g.ops[1].scope == 10
    && (forall a :: a in g.arcs ==> a.source != 1 && a.source != 2 && a.source != 6 && a.target != 2)
    && (forall a :: a in g.arcs && a.source == 4 && a.kind.TrueBranch? ==> a.target == 6)
  }

  lemma LoopedScopeEntries(g: Graph)
    requires LoopedGraph(g)
    ensures Entries(g, 2) == {2}
  {
    var r := Rel(g);
    assert (3, 9) in r && (9, 4) in r && (9, 7) in r && (4, 6) in r && (4, 5) in r && (7, 8) in r && (5, 3) in r;
    assert forall m :: (m, 2) !in r;
    var sources := set n | n in ScopeNodes(g, 2) && forall m :: (m, n) !in r;
    assert 2 in sources;
    forall n | n in sources ensures n == 2 {}
    assert sources == {2};
  }

  lemma NoWayOn(r: Relation, s: Id)
    requires forall v :: (s, v) !in r
    ensures forall p :: IsWalk(r, p) && p[0] == s ==> |p| == 1
  {
    forall p | IsWalk(r, p) && |p| > 1 ensures (p[0], p[1]) in r {}
  }

  /** All three tests pass for the guard and the action. */
  lemma GuardPasses(g: Graph)
    requires LoopedGraph(g)
    ensures Reach(Rel(g), 4, 5) && DominatesSpec(g, 4, 5) && BranchControlsSpec(g, 4, 5)
  {
    var r := Rel(g);
    assert (4, 5) in r by { assert Arc(4, 5, FalseBranch) in g.arcs; }
    StepIsReach(r, 4, 5);
    LoopedScopeEntries(g);
    NoWayOn(r, 2);
    assert HasOutcome(g, 4, TrueBranch) by { assert Arc(4, 6, TrueBranch) in g.arcs; }
    assert OutcomeReaches(g, 4, FalseBranch, 5) by { assert Arc(4, 5, FalseBranch) in g.arcs; }
    assert HasOutcome(g, 4, FalseBranch) by { assert Arc(4, 5, FalseBranch) in g.arcs; }
    ReturnLeadsNowhere(g);
  }

  lemma ReturnLeadsNowhere(g: Graph)
    requires LoopedGraph(g)
    ensures !OutcomeReaches(g, 4, TrueBranch, 5)
  {
    NoWayOn(LoopFreeRel(g), 6);
  }

  // ---------- runs ----------

  lemma NoHosts(ir: SemanticIR, ops: map<Id, Op>)
    requires IsLooped(ir) && LooksUp(ops, ir.operations)
    ensures (forall c: Id :: HostOf(ops, false, c) == NO_ID) && (forall h: Id :: !ResolvedHost(ops, ir.edges, false, h))
    ensures forall id: Id :: id in ops && ops[id].kind.Function? ==> id == 2
    ensures 1 in ops && 2 in ops && ops[2].kind.Function?
  {
    assert forall i :: 0 <= i < |ir.operations| ==> ir.operations[i].host == NO_ID;
    assert forall i :: 0 <= i < |ir.operations| && ir.operations[i].kind.Function? ==> i == 1;
    assert ops[2] == ir.operations[1];
  }

  /** What the edges of the program allow. */
  ghost predicate LoopedFacts(ir: SemanticIR, ops: map<Id, Op>) {
    && (forall c: Id :: HostOf(ops, false, c) == NO_ID) && (forall h: Id :: !ResolvedHost(ops, ir.edges, false, h))
    && (forall id: Id :: id in ops && ops[id].kind.Function? ==> id == 2) && EntryOf(ops, ir.edges, 2) == 3
    && (forall e :: e in ir.edges ==> LoopedEdge(e))
  }

  lemma LoopedFactsHold(ir: SemanticIR, ops: map<Id, Op>)
    requires IsLooped(ir) && LooksUp(ops, ir.operations)
    ensures LoopedFacts(ir, ops)
  {
    NoHosts(ir, ops);
    LoopedEdges(ir);
    LoopedEntry(ir, ops);
  }

  /** No arc brings the action nearer by more than one. */
  lemma ArcsAreSteady(view: View, ir: SemanticIR, a: Jump)
    requires BuiltFrom(view, ir, false) && LoopedFacts(ir, view.ops) && a in view.arcs
    ensures DistanceToAction(a.source) <= DistanceToAction(a.target) + 1
  {
    assert HostOf(view.ops, false, a.target) == NO_ID;
    assert BuiltArc(view.ops, ir.edges, false, a);
  }

  lemma {:induction false} RunsTakeTime(view: View, depth: nat, source: Id, cs: seq<Config>, arcs: seq<Jump>, n: nat)
    requires RunFrom(view, depth, source, cs, arcs) && n < |cs|
    requires forall a :: a in view.arcs ==> DistanceToAction(a.source) <= DistanceToAction(a.target) + 1
    ensures DistanceToAction(source) <= DistanceToAction(cs[n].op) + n
  {
    if n > 0 {
      RunsTakeTime(view, depth, source, cs, arcs, n - 1);
      assert Step(view, depth, cs[n - 1], arcs[n - 1], cs[n]);
    }
  }

  lemma AllSteady(view: View, ir: SemanticIR)
    requires BuiltFrom(view, ir, false) && LoopedFacts(ir, view.ops)
    ensures forall a :: a in view.arcs ==> DistanceToAction(a.source) <= DistanceToAction(a.target) + 1
  {
    forall a | a in view.arcs ensures DistanceToAction(a.source) <= DistanceToAction(a.target) + 1 {
      ArcsAreSteady(view, ir, a);
    }
  }

  function Along(u: Id, v: Id): Jump {
    Jump(u, v, CtrlFlow, NO_ID)
  }

  const ENTER := Jump(1, 2, CallEnter, 1)
  const INTO := Jump(2, 3, FunctionEntry, NO_ID)

  const WAY: seq<Jump> := [ENTER, INTO, Along(3, 9), Along(9, 4), Along(4, 5)]

  /** The arcs on the way through the guard are the only ones that bring the action nearer. */
  predicate OnTheWay(u: Id, a: Jump, v: Id) {
    && a.target == v && DistanceToAction(u) <= DistanceToAction(v) + 1
    && (u == 1 ==> a == ENTER) && (u == 2 ==> a == INTO) && (u == 3 ==> a == Along(3, 9))
    && (u == 9 && DistanceToAction(v) == 1 ==> a == Along(9, 4)) && (u == 4 && v == 5 ==> a == Along(4, 5))
  }

  lemma ArcOnTheWay(view: View, ir: SemanticIR, a: Jump)
    requires BuiltFrom(view, ir, false) && LoopedFacts(ir, view.ops) && a in view.arcs
    ensures OnTheWay(a.source, a, a.target)
  {
    ArcsAreSteady(view, ir, a);
    assert BuiltArc(view.ops, ir.edges, false, a);
    BuiltOnTheWay(ir, view.ops, a);
  }

  lemma BuiltOnTheWay(ir: SemanticIR, ops: map<Id, Op>, a: Jump)
    requires LoopedFacts(ir, ops) && BuiltArc(ops, ir.edges, false, a)
    requires DistanceToAction(a.source) <= DistanceToAction(a.target) + 1
    ensures OnTheWay(a.source, a, a.target)
  {
    assert HostOf(ops, false, a.target) == NO_ID;
    match a.kind
    case CtrlFlow => RawOnTheWay(ir, ops, a.source, a.target);
    case CallReturn => RawOnTheWay(ir, ops, Anchor(ops, false, a.callId), a.target);
    case _ =>
  }

  lemma RawOnTheWay(ir: SemanticIR, ops: map<Id, Op>, u: Id, v: Id)
    requires LoopedFacts(ir, ops) && RawEdge(ops, ir.edges, u, v)
    ensures u != 1 && u != 2 && (u == 3 ==> v == 9) && (u == 9 ==> v == 4 || v == 7)
  {}

  lemma OnlyWay(ids: seq<Id>, arcs: seq<Jump>)
    requires |arcs| == 5 && |ids| == 6 && ids[0] == 1 && ids[5] == 5
    requires OnTheWay(ids[0], arcs[0], ids[1]) && OnTheWay(ids[1], arcs[1], ids[2]) && OnTheWay(ids[2], arcs[2], ids[3])
    requires OnTheWay(ids[3], arcs[3], ids[4]) && OnTheWay(ids[4], arcs[4], ids[5])
    ensures arcs == WAY
  {}

  /** So no run to the action is shorter, and no other is as short. */
  lemma QuickestRun(view: View, ir: SemanticIR, depth: nat, cs: seq<Config>, arcs: seq<Jump>)
    requires BuiltFrom(view, ir, false) && LoopedFacts(ir, view.ops) && RunTo(view, depth, 1, 5, cs, arcs)
    ensures |arcs| > 5 || arcs == WAY
  {
    AllSteady(view, ir);
    RunsTakeTime(view, depth, 1, cs, arcs, |arcs|);
    if |arcs| == 5 {
      forall k | 0 <= k < 5 ensures OnTheWay(OpsOf(cs)[k], arcs[k], OpsOf(cs)[k + 1]) {
        assert Step(view, depth, cs[k], arcs[k], cs[k + 1]);
        ArcOnTheWay(view, ir, arcs[k]);
      }
      OnlyWay(OpsOf(cs), arcs);
    }
  }

  lemma WayIsLeast(view: View, ir: SemanticIR, depth: nat)
    requires BuiltFrom(view, ir, false) && LoopedFacts(ir, view.ops)
    ensures LeastRun(view, depth, 1, 5, WAY)
  {
    forall cs, arcs | RunTo(view, depth, 1, 5, cs, arcs) ensures Leq(WAY, arcs) {
      QuickestRun(view, ir, depth, cs, arcs);
      assert |Key(WAY)| == 15 && |Key(arcs)| == 3 * |arcs|;
    }
  }

  /** Following a raw control edge from any stack. */
  lemma FollowRaw(view: View, ir: SemanticIR, depth: nat, u: Id, v: Id, stack: seq<Frame>)
    requires BuiltFrom(view, ir, false) && RawEdge(view.ops, ir.edges, u, v) &&
             !ResolvedHost(view.ops, ir.edges, false, u)
    ensures Step(view, depth, Config(u, stack), Jump(u, v, CtrlFlow, NO_ID), Config(v, stack))
  {
    var d := PlainStep(view, ir, false, depth, Jump(u, v, CtrlFlow, NO_ID), stack);
  }

  ghost predicate Ways(view: View, depth: nat, s: seq<Frame>) {
    && |s| == 1 && Step(view, depth, Config(1, []), ENTER, Config(2, s)) &&
       Step(view, depth, Config(2, s), INTO, Config(3, s))
    && Step(view, depth, Config(3, s), Along(3, 9), Config(9, s)) &&
       Step(view, depth, Config(9, s), Along(9, 4), Config(4, s))
    && Step(view, depth, Config(4, s), Along(4, 5), Config(5, s)) &&
       Step(view, depth, Config(9, s), Along(9, 7), Config(7, s))
    && Step(view, depth, Config(7, s), Along(7, 8), Config(8, s)) &&
       Step(view, depth, Config(8, s), Along(8, 5), Config(5, s))
  }

  lemma WaysExist(view: View, ir: SemanticIR, depth: nat) returns (s: seq<Frame>)
    requires BuiltFrom(view, ir, false) && LoopedFacts(ir, view.ops) && LoopedRaw(view.ops, ir.edges) && depth > 0
    requires CallTarget(view.ops, ir.edges, false, 1, 2) && 1 in view.ops && 2 in view.ops && view.ops[2].kind.Function?
    ensures Ways(view, depth, s)
  {
    var enter, d := EnterStep(view, ir, false, depth, 1, 2, []);
    s := d.stack;
    var body := PlainStep(view, ir, false, depth, INTO, s);
    FollowRaw(view, ir, depth, 3, 9, s);
    FollowRaw(view, ir, depth, 9, 4, s);
    FollowRaw(view, ir, depth, 4, 5, s);
    FollowRaw(view, ir, depth, 9, 7, s);
    FollowRaw(view, ir, depth, 7, 8, s);
    FollowRaw(view, ir, depth, 8, 5, s);
  }

  /** The way through the guard. */
  lemma Through(view: View, depth: nat, s: seq<Frame>) returns (cs: seq<Config>, arcs: seq<Jump>)
    requires Ways(view, depth, s)
    ensures RunTo(view, depth, 1, 5, cs, arcs) && OpsOf(cs) == [1, 2, 3, 9, 4, 5] && arcs == WAY && |cs[5].stack| == 1
  {
    cs := [Config(1, []), Config(2, s), Config(3, s), Config(9, s), Config(4, s), Config(5, s)];
    arcs := WAY;
    assert OpsOf(cs) == [1, 2, 3, 9, 4, 5];
  }

  /** The way past it. */
  lemma Past(view: View, depth: nat, s: seq<Frame>) returns (cs: seq<Config>, arcs: seq<Jump>)
    requires Ways(view, depth, s)
    ensures RunTo(view, depth, 1, 5, cs, arcs) && OpsOf(cs) == [1, 2, 3, 9, 7, 8, 5]
  {
    cs := [Config(1, []), Config(2, s), Config(3, s), Config(9, s), Config(7, s), Config(8, s), Config(5, s)];
    arcs := [ENTER, INTO, Along(3, 9), Along(9, 7), Along(7, 8), Along(8, 5)];
    assert OpsOf(cs) == [1, 2, 3, 9, 7, 8, 5];
  }

  // ---------- the pair ----------

  const INVARIANT := Invariant(
    1, RequireGuard, (op: Op) => op.id == 1, (op: Op) => op.id == 5, Some((op: Op) => op.id == 4),
    (op: Op) => op.kind.Return? || op.kind.Break?, true, 4)

  lemma LoopedGraphHolds(ir: SemanticIR, g: Graph)
    requires IsLooped(ir) && g == GraphOfIr(ir, {})
    ensures UniqueIds(ir.operations) && g.ops == OpsById(ir.operations) && LooksUp(g.ops, ir.operations) &&
            LoopedGraph(g)
  {
    LoopedEdges(ir);
    NumberedFlow(ir, g);
    LoopedAdmitted(ir, g.ops);
    LoopedFlow(ir, g.ops, g.arcs);
    LoopedShape(g, ir.edges);
    LoopedScope(ir);
    LoopedScopes(ir, g);
  }

  lemma LoopedShape(g: Graph, edges: seq<Edge>)
    requires forall a :: a in g.arcs ==> exists e :: e in edges && Admitted(g.ops, e) && ArcOf(e) == a
    requires forall e :: e in edges ==> LoopedEdge(e)
    ensures forall a :: a in g.arcs ==> a.source != 1 && a.source != 2 && a.source != 6 && a.target != 2
    ensures forall a :: a in g.arcs && a.source == 4 && a.kind.TrueBranch? ==> a.target == 6
  {}

  lemma LoopedScopes(ir: SemanticIR, g: Graph)
    requires LooksUp(g.ops, ir.operations) && |ir.operations| == 9 && ir.operations[0] == EVENT
    requires forall i :: 1 <= i < 9 ==> ir.operations[i].scope == 2
    ensures (forall id: Id :: id in g.ops <==> 1 <= id <= 9) && g.ops[1].scope == 10
    ensures forall id: Id :: 2 <= id <= 9 ==> g.ops[id].scope == 2
  {}

  lemma PairIsProven(g: Graph, view: Traversal, operations: seq<Op>, s: seq<Frame>) returns (p: IcfgPath)
    requires LoopedGraph(g) && GUARD in operations && g.ops[4] == GUARD
    requires Ways(view.graph, 4, s) && LeastRun(view.graph, 4, 1, 5, WAY)
    ensures Justified(g, view, INVARIANT, operations, Decision(EVENT, ACTION, Proven(p)))
  {
    var cs, arcs := Through(view.graph, 4, s);
    p := IcfgPath(OpsOf(cs), KindsOf(arcs), 1);
    assert IsShortestRun(view.graph, 4, 1, 5, p, cs, arcs);
    assert p.operationIds[4] == 4;
    GuardPasses(g);
    assert InnerGuard(INVARIANT, p, EVENT, GUARD, ACTION) && CrossScopeProves(g, GUARD, ACTION);
  }

  lemma LoopedWays(ir: SemanticIR, view: View, depth: nat) returns (s: seq<Frame>)
    requires IsLooped(ir) && BuiltFrom(view, ir, false) && LooksUp(view.ops, ir.operations) && depth > 0
    ensures Ways(view, depth, s) && LeastRun(view, depth, 1, 5, WAY)
  {
    LoopedFactsHold(ir, view.ops);
    WayIsLeast(view, ir, depth);
    NoHosts(ir, view.ops);
    LoopedCall(ir, view.ops);
    LoopedAdmitted(ir, view.ops);
    LoopedRawEdges(ir, view.ops);
    s := WaysExist(view, ir, depth);
  }

  lemma LoopedOps(ir: SemanticIR, operations: seq<Op>, m: map<Id, Op>)
    requires IsLooped(ir) && operations == SortOps(Analyzed(ir, {})) && LooksUp(m, ir.operations)
    ensures EVENT in operations && ACTION in operations && GUARD in operations && m[4] == GUARD
  {
    LoopedAt(ir);
    AnalyzedHas(ir, 0);
    AnalyzedHas(ir, 3);
    AnalyzedHas(ir, 4);
  }

  lemma LoopedAt(ir: SemanticIR)
    requires IsLooped(ir)
    ensures |ir.operations| == 9
    ensures ir.operations[0] == EVENT && ir.operations[3] == GUARD && ir.operations[4] == ACTION
  {}

  lemma AnalyzedHas(ir: SemanticIR, i: nat)
    requires i < |ir.operations| && ir.operations[i].scope != NO_ID
    ensures ir.operations[i] in SortOps(Analyzed(ir, {}))
  {}

  lemma PastIsUnguarded(operations: seq<Op>, ids: seq<Id>)
    requires ids == [1, 2, 3, 9, 7, 8, 5]
    ensures forall op :: op in operations && op.id in ids ==> !MatchesGuard(INVARIANT, op)
  {}

  /** The analyzer calls the pair proven, and so reports nothing, on a program where a run reaches the
      action without visiting any operation that matches the guard. */
  lemma ProvenPairMayBeUnguarded(ir: SemanticIR, g: Graph, view: Traversal, operations: seq<Op>)
    returns (p: IcfgPath, cs: seq<Config>, arcs: seq<Jump>)
    requires IsLooped(ir) && g == GraphOfIr(ir, {}) && Traverses(view, ir) && operations == SortOps(Analyzed(ir, {}))
    ensures UniqueIds(ir.operations) && EVENT in operations && ACTION in operations
    ensures Justified(g, view, INVARIANT, operations, Decision(EVENT, ACTION, Proven(p)))
    ensures RunTo(view.graph, INVARIANT.maxCallDepth, EVENT.id, ACTION.id, cs, arcs)
    ensures forall op :: op in operations && op.id in OpsOf(cs) ==> !MatchesGuard(INVARIANT, op)
  {
    LoopedGraphHolds(ir, g);
    LoopedOps(ir, operations, g.ops);
    var s := LoopedWays(ir, view.graph, 4);
    p := PairIsProven(g, view, operations, s);
    cs, arcs := Past(view.graph, 4, s);
    PastIsUnguarded(operations, OpsOf(cs));
  }
}
