/** State-machine reports in terms of the program alone: its operations and its ways. */
module GuardReport {
  import opened Sequences
  import opened Walks
  import opened Ir
  import opened ControlFlow
  import opened Reading
  import opened IcfgRuns
  import opened IcfgSearch
  import opened Icfg
  import opened StateMachine

  // ---------- within a scope ----------

  /** The guard is on every way from the event to the action, and as a branch it decides about the action. */
  ghost predicate Saves(ir: SemanticIR, languages: set<string>, inv: Invariant, event: Op, guard: Op, action: Op) {
    && Reads(ir, languages, guard) && guard.scope == event.scope && guard.id != event.id && guard.id != action.id
    && inv.guard.Some? && inv.guard.value(guard)
    && Passes(ir, languages, event.id, guard.id, action.id)
    && (guard.kind == Branch ==> DecidesEitherWay(ir, languages, guard.id, action.id))
  }

  ghost predicate DecidesEitherWay(ir: SemanticIR, languages: set<string>, branch: Id, v: Id) {
    || Decides(ir, languages, branch, EdgeKind.TrueBranch, EdgeKind.FalseBranch, v)
    || Decides(ir, languages, branch, EdgeKind.FalseBranch, EdgeKind.TrueBranch, v)
  }

  /** The action follows the event in one scope, and for a guard invariant nothing saves it. */
  ghost predicate Breaks(ir: SemanticIR, languages: set<string>, inv: Invariant, event: Op, action: Op) {
    && Reads(ir, languages, event) && Reads(ir, languages, action) && inv.event(event) && inv.action(action)
    && event.scope == action.scope && event.scope != NO_ID && event.id != action.id
    && Leads(ir, languages, Flows, event.id, action.id)
    && (inv.kind == RequireGuard ==> forall op :: !Saves(ir, languages, inv, event, op, action))
  }

  /** v says that the pair breaks the invariant. */
  predicate Says(v: Violation, inv: Invariant) {
    && v.invariantId == inv.id && v.scope == v.event.scope
    && (v.missing == MissingGuard <==> inv.kind == RequireGuard)
    && (v.missing == ForbiddenAction <==> inv.kind == ForbidAction)
    && (v.missing == MissingExit <==> inv.kind == RequireExit)
  }

  lemma AnalyzedRead(ir: SemanticIR, languages: set<string>, scope: Id, op: Op)
    ensures op in InScope(Analyzed(ir, languages), scope) <==>
            Reads(ir, languages, op) && op.scope == scope && scope != NO_ID
  {}

  /** The operations of one scope. */
  ghost predicate ScopeRead(ir: SemanticIR, languages: set<string>, scope: Id, operations: seq<Op>) {
    forall op :: op in operations <==> Reads(ir, languages, op) && op.scope == scope
  }

  lemma ProtectsIsSaves(
        ir: SemanticIR, languages: set<string>, inv: Invariant, operations: seq<Op>, event: Op, op: Op, action: Op)
    requires UniqueIds(ir.operations) && ScopeRead(ir, languages, event.scope, operations)
    ensures op in operations && Protects(GraphOfIr(ir, languages), inv, event, op, action) <==>
            Saves(ir, languages, inv, event, op, action)
  {
    VisitsIsPasses(ir, languages, event.id, op.id, action.id);
    ControlIsDecision(ir, languages, op.id, action.id);
  }

  /** The intraprocedural violations of one invariant. */
  lemma ScopeViolationsRead(
        ir: SemanticIR, languages: set<string>, g: Graph, inv: Invariant, scope: Id, operations: seq<Op>, v: Violation)
    requires UniqueIds(ir.operations) && scope != NO_ID && g == GraphOfIr(ir, languages)
    requires ScopeRead(ir, languages, scope, operations)
    ensures v in ScopeViolations(g, inv, scope, operations) <==>
            v.path.None? && v.event.scope == scope && Says(v, inv) && Breaks(ir, languages, inv, v.event, v.action)
  {
    if v in ScopeViolations(g, inv, scope, operations) {
      ReportedRead(g, inv, scope, operations, v);
      ViolatesIsBreaks(ir, languages, g, inv, scope, operations, v.event, v.action);
    }
    if v.path.None? && v.event.scope == scope && Says(v, inv) && Breaks(ir, languages, inv, v.event, v.action) {
      BreakIsReported(ir, languages, g, inv, scope, operations, v);
    }
  }

  lemma BreakIsReported(
        ir: SemanticIR, languages: set<string>, g: Graph, inv: Invariant, scope: Id, operations: seq<Op>, v: Violation)
    requires UniqueIds(ir.operations) && scope != NO_ID && g == GraphOfIr(ir, languages)
    requires ScopeRead(ir, languages, scope, operations)
    requires v.path.None? && v.event.scope == scope && Says(v, inv) && Breaks(ir, languages, inv, v.event, v.action)
    ensures v in ScopeViolations(g, inv, scope, operations)
  {
    ReportedRead(g, inv, scope, operations, v);
    ViolatesIsBreaks(ir, languages, g, inv, scope, operations, v.event, v.action);
  }

  lemma ReportedRead(g: Graph, inv: Invariant, scope: Id, operations: seq<Op>, v: Violation)
    ensures v in ScopeViolations(g, inv, scope, operations) <==>
            && v.event in operations && v.action in operations && inv.event(v.event) && inv.action(v.action)
            && v.path.None? && v.scope == scope && v.invariantId == inv.id && v.missing == MissingFor(inv.kind)
            && Violates(g, inv, operations, v.event, v.action)
  {
    EventViolationsAre(g, inv, scope, operations, Filter(inv.event, operations), Filter(inv.action, operations), v);
  }

  lemma ViolatesIsBreaks(
        ir: SemanticIR, languages: set<string>, g: Graph, inv: Invariant, scope: Id, operations: seq<Op>, event: Op,
        action: Op)
    requires UniqueIds(ir.operations) && scope != NO_ID && g == GraphOfIr(ir, languages)
    requires ScopeRead(ir, languages, scope, operations)
    requires event in operations && action in operations && inv.event(event) && inv.action(action)
    ensures Violates(g, inv, operations, event, action) <==> Breaks(ir, languages, inv, event, action)
  {
    PairRead(ir, languages, g, inv, operations, event, action);
    PairVerdict(g, inv, scope, operations, event, action);
  }

  /** Whether a pair violates an invariant, by what protects it. */
  lemma PairVerdict(g: Graph, inv: Invariant, scope: Id, operations: seq<Op>, event: Op, action: Op)
    requires WellFormed(g)
    requires event in operations && action in operations && inv.event(event) && inv.action(action)
    ensures Violates(g, inv, operations, event, action) <==>
            && action.id != event.id && Reach(Rel(g), event.id, action.id)
            && (inv.kind.RequireGuard? ==> forall op :: op in operations ==> !Protects(g, inv, event, op, action))
  {
    if Reach(Rel(g), event.id, action.id) {
      forall op | op in operations ensures Guards(g, inv, event, op, action) <==> Protects(g, inv, event, op, action) {
        GuardsMeansProtects(g, inv, event, op, action);
      }
    }
  }

  lemma PairRead(
        ir: SemanticIR, languages: set<string>, g: Graph, inv: Invariant, operations: seq<Op>, event: Op, action: Op)
    requires UniqueIds(ir.operations) && ScopeRead(ir, languages, event.scope, operations)
    requires g == GraphOfIr(ir, languages)
    ensures Reach(Rel(g), event.id, action.id) <==> Leads(ir, languages, Flows, event.id, action.id)
    ensures (forall op :: op in operations ==> !Protects(g, inv, event, op, action)) <==>
            forall op :: !Saves(ir, languages, inv, event, op, action)
  {
    RelationsAreSteps(ir, languages);
    ReachIsLeads(ir, languages, Flows, Rel(g), event.id, action.id);
    forall op ensures op in operations && Protects(g, inv, event, op, action) <==>
                      Saves(ir, languages, inv, event, op, action) {
      ProtectsIsSaves(ir, languages, inv, operations, event, op, action);
    }
  }

  /** The pair breaks one of the intraprocedural invariants. */
  ghost predicate BreaksSome(ir: SemanticIR, languages: set<string>, invariants: seq<Invariant>, v: Violation) {
    exists inv :: inv in invariants && !inv.interprocedural && Says(v, inv) &&
                  Breaks(ir, languages, inv, v.event, v.action)
  }

  lemma ScopesRead(ir: SemanticIR, languages: set<string>, invariants: seq<Invariant>, v: Violation)
    requires UniqueIds(ir.operations)
    ensures var analyzed := Analyzed(ir, languages);
            v in ScopesIn(GraphOfIr(ir, languages), analyzed, SortedSet(StateMachine.ScopesOf(analyzed)),
              invariants) <==>
            v.path.None? && BreaksSome(ir, languages, invariants, v)
  {
    var g, analyzed := GraphOfIr(ir, languages), Analyzed(ir, languages);
    ScopesInAre(g, analyzed, SortedSet(StateMachine.ScopesOf(analyzed)), invariants, v);
    if v.scope in StateMachine.ScopesOf(analyzed) {
      var operations := InScope(analyzed, v.scope);
      forall op ensures op in operations <==> Reads(ir, languages, op) && op.scope == v.scope {
        AnalyzedRead(ir, languages, v.scope, op);
      }
      forall inv | inv in invariants
        ensures v in ScopeViolations(g, inv, v.scope, operations) <==>
                v.path.None? && v.event.scope == v.scope && Says(v, inv) &&
                  Breaks(ir, languages, inv, v.event, v.action)
      {
        ScopeViolationsRead(ir, languages, g, inv, v.scope, operations, v);
      }
    }
    if BreaksSome(ir, languages, invariants, v) {
      assert v.event in analyzed;
    }
  }

  // ---------- the order within a scope ----------

  predicate Earlier(a: Op, b: Op) {
    a.position < b.position || (a.position == b.position && a.id < b.id)
  }

  /** By event, then by action, as they stand in the source. */
  predicate PairEarlier(v: Violation, w: Violation) {
    Earlier(v.event, w.event) || (v.event == w.event && Earlier(v.action, w.action))
  }

  ghost predicate PairsInOrder(vs: seq<Violation>) {
    forall i, j :: 0 <= i < j < |vs| ==> PairEarlier(vs[i], vs[j])
  }

  ghost predicate OpsInOrder(ops: seq<Op>) {
    forall i, j :: 0 <= i < j < |ops| ==> Earlier(ops[i], ops[j])
  }

  lemma JoinPairs(a: seq<Violation>, b: seq<Violation>)
    requires PairsInOrder(a) && PairsInOrder(b) && forall v, w :: v in a && w in b ==> PairEarlier(v, w)
    ensures PairsInOrder(a + b)
  {}

  lemma {:induction false} FilterInOrder(f: Op -> bool, ops: seq<Op>)
    requires OpsInOrder(ops)
    ensures OpsInOrder(Filter(f, ops))
    decreases |ops|
  {
    if ops != [] {
      FilterInOrder(f, ops[1..]);
      var rest := Filter(f, ops[1..]);
      forall k | 0 <= k < |rest| ensures Earlier(ops[0], rest[k]) {
        assert rest[k] in rest && rest[k] in ops[1..];
        var j :| 0 <= j < |ops[1..]| && ops[1..][j] == rest[k];
        assert ops[j + 1] == rest[k];
      }
    }
  }

  lemma {:induction false} ActionsInOrder(
        g: Graph, inv: Invariant, scope: Id, operations: seq<Op>, event: Op, actions: seq<Op>)
    requires OpsInOrder(actions)
    ensures PairsInOrder(ActionViolations(g, inv, scope, operations, event, actions))
    decreases |actions|
  {
    if actions != [] {
      var n := |actions| - 1;
      var before := ActionViolations(g, inv, scope, operations, event, actions[..n]);
      ActionsInOrder(g, inv, scope, operations, event, actions[..n]);
      forall v | v in before ensures v.event == event && Earlier(v.action, actions[n]) {
        ActionViolationsAre(g, inv, scope, operations, event, actions[..n], v);
        var i :| 0 <= i < n && actions[i] == v.action;
        assert Earlier(actions[i], actions[n]);
      }
    }
  }

  lemma {:induction false} EventsInOrder(
        g: Graph, inv: Invariant, scope: Id, operations: seq<Op>, events: seq<Op>, actions: seq<Op>)
    requires OpsInOrder(events) && OpsInOrder(actions)
    ensures PairsInOrder(EventViolations(g, inv, scope, operations, events, actions))
    decreases |events|
  {
    if events != [] {
      var n := |events| - 1;
      var before, last := EventViolations(g, inv, scope, operations, events[..n], actions),
                          ActionViolations(g, inv, scope, operations, events[n], actions);
      EventsInOrder(g, inv, scope, operations, events[..n], actions);
      ActionsInOrder(g, inv, scope, operations, events[n], actions);
      forall v, w | v in before && w in last ensures PairEarlier(v, w) {
        EventViolationsAre(g, inv, scope, operations, events[..n], actions, v);
        ActionViolationsAre(g, inv, scope, operations, events[n], actions, w);
        var i :| 0 <= i < n && events[i] == v.event;
        assert Earlier(events[i], events[n]);
      }
      JoinPairs(before, last);
    }
  }

  /** The violations of an invariant in a scope are listed by event, then by action. */
  lemma ViolationsInOrder(ir: SemanticIR, languages: set<string>, inv: Invariant, scope: Id)
    requires UniqueIds(ir.operations)
    ensures PairsInOrder(
              ScopeViolations(GraphOfIr(ir, languages), inv, scope, InScope(Analyzed(ir, languages), scope)))
  {
    var some := Filter((op: Op) => op.scope == scope, Analyzed(ir, languages));
    FilterKeepsUnique((op: Op) => Kept(op, languages) && op.scope != NO_ID, ir.operations);
    FilterKeepsUnique((op: Op) => op.scope == scope, Analyzed(ir, languages));
    SortOpsKeepsUnique(some);
    SortOpsInOrder(some);
    var operations := InScope(Analyzed(ir, languages), scope);
    assert OpsInOrder(operations);
    FilterInOrder(inv.event, operations);
    FilterInOrder(inv.action, operations);
    EventsInOrder(GraphOfIr(ir, languages), inv, scope, operations, Filter(inv.event, operations),
      Filter(inv.action, operations));
  }

  // ---------- across scopes ----------

  /** The operations a report looks at, in order. */
  function AllAnalyzed(ir: SemanticIR, languages: set<string>): seq<Op> {
    SortOps(Analyzed(ir, languages))
  }

  lemma {:induction false} TalliedPaths(inv: Invariant, ds: seq<Decision>, v: Violation)
    ensures v in Tallied(inv, ds).violations <==>
            v.path.Some? && Says(v, inv) && Decision(v.event, v.action, Violated(v.path.value)) in ds
    decreases |ds|
  {
    if ds != [] {
      SplitLast(ds);
      TalliedPaths(inv, ds[..|ds| - 1], v);
    }
  }

  lemma {:induction false} AcrossViolations(start: Report, runs: seq<Across>, v: Violation)
    ensures v in AddAcross(start, runs).violations <==>
            v in start.violations || exists a :: a in runs && v in a.tally.violations
    decreases |runs|
  {
    if runs != [] {
      SplitLast(runs);
      AcrossViolations(start, runs[..|runs| - 1], v);
    }
  }

  lemma {:induction false} RunsCover(invariants: seq<Invariant>, runs: seq<Across>, inv: Invariant)
    requires InvariantsOf(runs) == Interprocedural(invariants)
    ensures (exists a :: a in runs && a.inv == inv) <==> inv in invariants && inv.interprocedural
  {
    InvariantsOfAre(runs, inv);
    InterproceduralAre(invariants, inv);
  }

  lemma {:induction false} InvariantsOfAre(runs: seq<Across>, inv: Invariant)
    ensures inv in InvariantsOf(runs) <==> exists a :: a in runs && a.inv == inv
    decreases |runs|
  {
    if runs != [] {
      SplitLast(runs);
      InvariantsOfAre(runs[..|runs| - 1], inv);
    }
  }

  lemma {:induction false} InterproceduralAre(invariants: seq<Invariant>, inv: Invariant)
    ensures inv in Interprocedural(invariants) <==> inv in invariants && inv.interprocedural
    decreases |invariants|
  {
    if invariants != [] {
      SplitLast(invariants);
      InterproceduralAre(invariants[..|invariants| - 1], inv);
    }
  }

  /** Within a scope: the report lists a pair without a path exactly when it breaks an invariant. */
  lemma ReportIff(
        ir: SemanticIR, invariants: seq<Invariant>, languages: set<string>, r: Report, view: Traversal,
        runs: seq<Across>, v: Violation)
    requires UniqueIds(ir.operations) && IsReport(ir, invariants, languages, r, view, runs) && v.path.None?
    ensures v in r.violations <==> BreaksSome(ir, languages, invariants, v)
  {
    var g, analyzed := GraphOfIr(ir, languages), Analyzed(ir, languages);
    var scopes := SortedSet(StateMachine.ScopesOf(analyzed));
    AcrossViolations(Report(ScopesIn(g, analyzed, scopes, invariants), |invariants|, |scopes|, 0, 0), runs, v);
    forall a | a in runs ensures v !in a.tally.violations {
      assert AcrossHolds(g, view, AllAnalyzed(ir, languages), a);
      TalliedPaths(a.inv, a.ds, v);
    }
    ScopesRead(ir, languages, invariants, v);
  }

  /** A pair in different scopes that an interprocedural invariant is about. */
  ghost predicate Crosses(ir: SemanticIR, languages: set<string>, inv: Invariant, event: Op, action: Op) {
    && Reads(ir, languages, event) && Reads(ir, languages, action) && inv.event(event) && inv.action(action)
    && event.scope != NO_ID && action.scope != NO_ID && event.scope != action.scope && event.id != action.id
  }

  /** An operation the report looks at, on the path and at neither end, matches the guard. */
  ghost predicate PathGuarded(
        ir: SemanticIR, languages: set<string>, inv: Invariant, event: Op, action: Op, path: IcfgPath) {
    exists op ::
      && Reads(ir, languages, op) && op.scope != NO_ID && op.id in path.operationIds
      && op.id != event.id && op.id != action.id && inv.guard.Some? && inv.guard.value(op)
  }

  /** The least shortest run of the program, and no guard on it where one is required. */
  ghost predicate BreaksAcross(
        ir: SemanticIR, languages: set<string>, view: Traversal, inv: Invariant, event: Op, action: Op,
        path: IcfgPath) {
    && Crosses(ir, languages, inv, event, action)
    && ShortestRun(view.graph, inv.maxCallDepth, event.id, action.id, path)
    && (inv.kind == RequireGuard ==> !PathGuarded(ir, languages, inv, event, action, path))
  }

  lemma AllAnalyzedRead(ir: SemanticIR, languages: set<string>, op: Op)
    ensures op in AllAnalyzed(ir, languages) <==> Reads(ir, languages, op) && op.scope != NO_ID
  {}

  lemma {:induction false} PairsWithAre(event: Op, actions: seq<Op>, pair: (Op, Op))
    ensures pair in PairsWith(event, actions) <==>
            pair.0 == event && pair.1 in actions && event.scope != pair.1.scope && event.id != pair.1.id
    decreases |actions|
  {
    if actions != [] {
      SplitLast(actions);
      PairsWithAre(event, actions[..|actions| - 1], pair);
    }
  }

  lemma {:induction false} PairsAre(events: seq<Op>, actions: seq<Op>, pair: (Op, Op))
    ensures pair in PairsOf(events, actions) <==>
            && pair.0 in events && pair.1 in actions
            && pair.0.scope != pair.1.scope && pair.0.id != pair.1.id
    decreases |events|
  {
    if events != [] {
      SplitLast(events);
      PairsAre(events[..|events| - 1], actions, pair);
      PairsWithAre(events[|events| - 1], actions, pair);
    }
  }

  lemma {:induction false} DecidedAre(ds: seq<Decision>, event: Op, action: Op)
    ensures (event, action) in Decided(ds) <==> exists d :: d in ds && d.event == event && d.action == action
    decreases |ds|
  {
    if ds != [] {
      SplitLast(ds);
      DecidedAre(ds[..|ds| - 1], event, action);
    }
  }

  /** The decisions of a run are on the pairs in different scopes, each justified. */
  lemma DecisionsRead(ir: SemanticIR, languages: set<string>, view: Traversal, a: Across, event: Op, action: Op)
    requires AcrossHolds(GraphOfIr(ir, languages), view, AllAnalyzed(ir, languages), a)
    ensures (exists d :: d in a.ds && d.event == event && d.action == action) <==>
            Crosses(ir, languages, a.inv, event, action)
  {
    var operations := AllAnalyzed(ir, languages);
    DecidedAre(a.ds, event, action);
    PairsAre(Filter(a.inv.event, operations), Filter(a.inv.action, operations), (event, action));
    AllAnalyzedRead(ir, languages, event);
    AllAnalyzedRead(ir, languages, action);
  }

  lemma InnerGuardsRead(
        ir: SemanticIR, languages: set<string>, operations: seq<Op>, inv: Invariant, event: Op, action: Op,
        path: IcfgPath)
    requires forall op :: op in operations <==> Reads(ir, languages, op) && op.scope != NO_ID
    ensures (exists op :: op in operations && InnerGuard(inv, path, event, op, action)) <==>
            PathGuarded(ir, languages, inv, event, action, path)
  {
    if op :| op in operations && InnerGuard(inv, path, event, op, action) {
      assert Reads(ir, languages, op) && op.scope != NO_ID && inv.guard.value(op);
    }
    if op :| Reads(ir, languages, op) && op.scope != NO_ID && op.id in path.operationIds && op.id != event.id &&
             op.id != action.id && inv.guard.Some? && inv.guard.value(op) {
      assert op in operations && InnerGuard(inv, path, event, op, action);
    }
  }

  /** Ten thousand distinct transitions were followed from reachable states. */
  ghost predicate GivenUp(view: Traversal, depth: nat, source: Id) {
    exists n: nat :: n >= 10_000 && AtLeastTransitions(view.graph, view.successors, depth, source, n)
  }

  /** What a decision says about the program. */
  ghost predicate Stands(ir: SemanticIR, languages: set<string>, view: Traversal, inv: Invariant, d: Decision) {
    match d.outcome
    case NoPath(_) =>
      || NoRun(view.graph, inv.maxCallDepth, d.event.id, d.action.id)
      || GivenUp(view, inv.maxCallDepth, d.event.id)
    case Proven(path) => GuardedRun(ir, languages, view, inv, d.event, d.action, path)
    case Undecided(path) => GuardedRun(ir, languages, view, inv, d.event, d.action, path)
    case Violated(path) =>
      && ShortestRun(view.graph, inv.maxCallDepth, d.event.id, d.action.id, path)
      && (inv.kind == RequireGuard ==> !PathGuarded(ir, languages, inv, d.event, d.action, path))
  }

  ghost predicate GuardedRun(
        ir: SemanticIR, languages: set<string>, view: Traversal, inv: Invariant, event: Op, action: Op,
        path: IcfgPath) {
    && ShortestRun(view.graph, inv.maxCallDepth, event.id, action.id, path)
    && inv.kind == RequireGuard && PathGuarded(ir, languages, inv, event, action, path)
  }

  lemma DecisionStands(
        ir: SemanticIR, languages: set<string>, g: Graph, view: Traversal, inv: Invariant, operations: seq<Op>,
        d: Decision)
    requires forall op :: op in operations <==> Reads(ir, languages, op) && op.scope != NO_ID
    requires Justified(g, view, inv, operations, d)
    ensures Stands(ir, languages, view, inv, d)
  {
    match d.outcome {
      case NoPath(_) =>
      case Proven(path) => InnerGuardsRead(ir, languages, operations, inv, d.event, d.action, path);
      case Undecided(path) => InnerGuardsRead(ir, languages, operations, inv, d.event, d.action, path);
      case Violated(path) => InnerGuardsRead(ir, languages, operations, inv, d.event, d.action, path);
    }
  }

  /** One interprocedural run read off the program: it decides the pairs in different scopes, each decision
      stands, and its violations are those decided so. */
  ghost predicate RunStands(ir: SemanticIR, languages: set<string>, view: Traversal, a: Across) {
    && (forall event, action ::
          (exists d :: d in a.ds && d.event == event && d.action == action) <==>
          Crosses(ir, languages, a.inv, event, action))
    && (forall v: Violation :: v in a.tally.violations <==>
          v.path.Some? && Says(v, a.inv) && Decision(v.event, v.action, Violated(v.path.value)) in a.ds)
    && (forall d :: d in a.ds ==> Stands(ir, languages, view, a.inv, d))
  }

  lemma AcrossStands(ir: SemanticIR, languages: set<string>, view: Traversal, a: Across)
    requires AcrossHolds(GraphOfIr(ir, languages), view, AllAnalyzed(ir, languages), a)
    ensures RunStands(ir, languages, view, a)
  {
    forall event, action ensures (exists d :: d in a.ds && d.event == event && d.action == action) <==>
                                 Crosses(ir, languages, a.inv, event, action) {
      DecisionsRead(ir, languages, view, a, event, action);
    }
    forall v: Violation ensures v in a.tally.violations <==>
                     v.path.Some? && Says(v, a.inv) && Decision(v.event, v.action, Violated(v.path.value)) in a.ds {
      TalliedPaths(a.inv, a.ds, v);
    }
    forall op ensures op in AllAnalyzed(ir, languages) <==> Reads(ir, languages, op) && op.scope != NO_ID {
      AllAnalyzedRead(ir, languages, op);
    }
    forall d | d in a.ds ensures Stands(ir, languages, view, a.inv, d) {
      DecisionStands(ir, languages, GraphOfIr(ir, languages), view, a.inv, AllAnalyzed(ir, languages), d);
    }
  }

  /** The runs of a report stand, one for each interprocedural invariant, and list all its paths. */
  ghost predicate RunsStand(
        ir: SemanticIR, invariants: seq<Invariant>, languages: set<string>, r: Report, view: Traversal,
        runs: seq<Across>) {
    && OneRunEach(invariants, runs) && ListsPaths(r, runs)
    && forall a :: a in runs ==> RunStands(ir, languages, view, a)
  }

  ghost predicate OneRunEach(invariants: seq<Invariant>, runs: seq<Across>) {
    forall inv :: (exists a :: a in runs && a.inv == inv) <==> inv in invariants && inv.interprocedural
  }

  /** The violations with a path are those of the runs. */
  ghost predicate ListsPaths(r: Report, runs: seq<Across>) {
    forall v: Violation :: v.path.Some? ==> (v in r.violations <==> exists a :: a in runs && v in a.tally.violations)
  }

  lemma InvariantsOfReport(
        ir: SemanticIR, invariants: seq<Invariant>, languages: set<string>, r: Report, view: Traversal,
        runs: seq<Across>)
    requires IsReport(ir, invariants, languages, r, view, runs)
    ensures OneRunEach(invariants, runs)
  {
    RunsCoverAll(invariants, runs);
  }

  lemma RunsCoverAll(invariants: seq<Invariant>, runs: seq<Across>)
    requires InvariantsOf(runs) == Interprocedural(invariants)
    ensures OneRunEach(invariants, runs)
  {
    forall inv ensures (exists a :: a in runs && a.inv == inv) <==> inv in invariants && inv.interprocedural {
      RunsCover(invariants, runs, inv);
    }
  }

  lemma TraversalOfReport(
        ir: SemanticIR, invariants: seq<Invariant>, languages: set<string>, r: Report, view: Traversal,
        runs: seq<Across>)
    requires IsReport(ir, invariants, languages, r, view, runs)
    ensures runs != [] ==> Traverses(view, ir)
  {}

  lemma RunOfReport(
        ir: SemanticIR, invariants: seq<Invariant>, languages: set<string>, r: Report, view: Traversal,
        runs: seq<Across>, a: Across)
    requires IsReport(ir, invariants, languages, r, view, runs) && a in runs
    ensures RunStands(ir, languages, view, a)
  {
    AcrossStands(ir, languages, view, a);
  }

  lemma RunsOfReport(
        ir: SemanticIR, invariants: seq<Invariant>, languages: set<string>, r: Report, view: Traversal,
        runs: seq<Across>)
    requires IsReport(ir, invariants, languages, r, view, runs)
    ensures forall a :: a in runs ==> RunStands(ir, languages, view, a)
  {
    forall a | a in runs ensures RunStands(ir, languages, view, a) {
      RunOfReport(ir, invariants, languages, r, view, runs, a);
    }
  }

  lemma PathOfReport(
        ir: SemanticIR, invariants: seq<Invariant>, languages: set<string>, r: Report, view: Traversal,
        runs: seq<Across>, v: Violation)
    requires UniqueIds(ir.operations) && IsReport(ir, invariants, languages, r, view, runs) && v.path.Some?
    ensures v in r.violations <==> exists a :: a in runs && v in a.tally.violations
  {
    var g, analyzed := GraphOfIr(ir, languages), Analyzed(ir, languages);
    var scopes := SortedSet(StateMachine.ScopesOf(analyzed));
    AcrossViolations(Report(ScopesIn(g, analyzed, scopes, invariants), |invariants|, |scopes|, 0, 0), runs, v);
    ScopesRead(ir, languages, invariants, v);
  }

  lemma PathsOfReport(
        ir: SemanticIR, invariants: seq<Invariant>, languages: set<string>, r: Report, view: Traversal,
        runs: seq<Across>)
    requires UniqueIds(ir.operations) && IsReport(ir, invariants, languages, r, view, runs)
    ensures ListsPaths(r, runs)
  {
    forall v: Violation | v.path.Some?
      ensures v in r.violations <==> exists a :: a in runs && v in a.tally.violations
    {
      PathOfReport(ir, invariants, languages, r, view, runs, v);
    }
  }

  lemma ReportStands(
        ir: SemanticIR, invariants: seq<Invariant>, languages: set<string>, r: Report, view: Traversal,
        runs: seq<Across>)
    requires UniqueIds(ir.operations) && IsReport(ir, invariants, languages, r, view, runs)
    ensures RunsStand(ir, invariants, languages, r, view, runs) && (runs != [] ==> Traverses(view, ir))
  {
    InvariantsOfReport(ir, invariants, languages, r, view, runs);
    TraversalOfReport(ir, invariants, languages, r, view, runs);
    RunsOfReport(ir, invariants, languages, r, view, runs);
    PathsOfReport(ir, invariants, languages, r, view, runs);
  }

  /** Across scopes: a pair is listed with a path only if the path breaks an interprocedural invariant. */
  lemma CrossViolationBreaks(
        ir: SemanticIR, invariants: seq<Invariant>, languages: set<string>, r: Report, view: Traversal,
        runs: seq<Across>, v: Violation)
    requires RunsStand(ir, invariants, languages, r, view, runs) && v.path.Some? && v in r.violations
    ensures runs != []
    ensures exists inv :: inv in invariants && inv.interprocedural && Says(v, inv) &&
                          BreaksAcross(ir, languages, view, inv, v.event, v.action, v.path.value)
  {
    var a :| a in runs && v in a.tally.violations;
    var d := Decision(v.event, v.action, Violated(v.path.value));
    assert RunStands(ir, languages, view, a) && d in a.ds && Stands(ir, languages, view, a.inv, d);
    assert Crosses(ir, languages, a.inv, d.event, d.action);
    assert BreaksAcross(ir, languages, view, a.inv, v.event, v.action, v.path.value);
  }

  /** The pair is listed with this path. */
  ghost predicate ListedWith(r: Report, inv: Invariant, event: Op, action: Op, path: IcfgPath) {
    exists v :: v in r.violations && Says(v, inv) && v.event == event && v.action == action && v.path == Some(path)
  }

  /** And every pair in different scopes is settled: it has no run, or the budget is spent, or it has a least
      shortest run, and is listed with it unless a guard is required and on it. */
  lemma CrossPairIsSettled(
        ir: SemanticIR, invariants: seq<Invariant>, languages: set<string>, r: Report, view: Traversal,
        runs: seq<Across>, inv: Invariant, event: Op, action: Op)
    requires RunsStand(ir, invariants, languages, r, view, runs)
    requires inv in invariants && inv.interprocedural && Crosses(ir, languages, inv, event, action)
    ensures || NoRun(view.graph, inv.maxCallDepth, event.id, action.id)
            || GivenUp(view, inv.maxCallDepth, event.id)
            || exists path ::
                 && ShortestRun(view.graph, inv.maxCallDepth, event.id, action.id, path)
                 && (BreaksAcross(ir, languages, view, inv, event, action, path) ==>
                       ListedWith(r, inv, event, action, path))
  {
    var a :| a in runs && a.inv == inv;
    assert RunStands(ir, languages, view, a);
    var d :| d in a.ds && d.event == event && d.action == action;
    assert Stands(ir, languages, view, inv, d);
    if d.outcome.Violated? {
      var v := Violation(inv.id, event.scope, event, action, MissingFor(inv.kind), Some(d.outcome.path));
      assert Says(v, inv) && Decision(v.event, v.action, Violated(v.path.value)) == d;
      assert v in a.tally.violations;
      assert v in r.violations;
    }
  }

  // ---------- the counters ----------

  /** The proofs of all runs. */
  ghost function AllProofs(runs: seq<Across>): nat
    decreases |runs|
  {
    if runs == [] then 0 else AllProofs(runs[..|runs| - 1]) + Proofs(runs[|runs| - 1].ds)
  }

  lemma {:induction false} AcrossCounts(
        g: Graph, view: Traversal, operations: seq<Op>, start: Report, runs: seq<Across>)
    requires forall a :: a in runs ==> AcrossHolds(g, view, operations, a)
    ensures var r := AddAcross(start, runs);
            && |start.violations| <= |r.violations| && start.unknowns <= r.unknowns
            && r.paths - start.paths ==
               (|r.violations| - |start.violations|) + (r.unknowns - start.unknowns) + AllProofs(runs)
            && r.invariants == start.invariants && r.scopes == start.scopes
    decreases |runs|
  {
    if runs != [] {
      SplitLast(runs);
      var rest, a := runs[..|runs| - 1], runs[|runs| - 1];
      assert a in runs;
      AcrossCounts(g, view, operations, start, rest);
      PathsAreAccounted(a.inv, a.ds);
      assert a.tally == Tallied(a.inv, a.ds) by { assert AcrossHolds(g, view, operations, a); }
    }
  }

  /** Every path of a report is a violation across scopes, an unknown or a proof; the invariants counted are
      those given, and the scopes those of the operations looked at. */
  lemma ReportIsCounted(
        ir: SemanticIR, invariants: seq<Invariant>, languages: set<string>, r: Report, view: Traversal,
        runs: seq<Across>)
    requires IsReport(ir, invariants, languages, r, view, runs)
    ensures var analyzed := Analyzed(ir, languages);
            var scopes := SortedSet(StateMachine.ScopesOf(analyzed));
            var within := |ScopesIn(GraphOfIr(ir, languages), analyzed, scopes, invariants)|;
            && within <= |r.violations| && r.paths == (|r.violations| - within) + r.unknowns + AllProofs(runs)
            && r.invariants == |invariants| && r.scopes == |scopes|
  {
    var g, analyzed := GraphOfIr(ir, languages), Analyzed(ir, languages);
    var scopes := SortedSet(StateMachine.ScopesOf(analyzed));
    AcrossCounts(g, view, AllAnalyzed(ir, languages),
      Report(ScopesIn(g, analyzed, scopes, invariants), |invariants|, |scopes|, 0, 0), runs);
  }

  // ---------- proofs across scopes ----------

  /** The point of an action: the operation it is embedded in, or the action itself. */
  ghost predicate IsPointOf(ir: SemanticIR, languages: set<string>, action: Op, point: Op) {
    Reads(ir, languages, point) && point.id == if action.host == NO_ID then action.id else action.host
  }

  /** A guard proves an action when, in the action's scope, it is before the point on every way from a
      beginning, leads to it and decides about it. */
  lemma ProofRead(ir: SemanticIR, languages: set<string>, guard: Op, action: Op)
    requires UniqueIds(ir.operations) && Reads(ir, languages, guard)
    ensures CrossScopeProves(GraphOfIr(ir, languages), guard, action) <==>
            guard.scope == action.scope && exists point ::
              && IsPointOf(ir, languages, action, point) && point.scope == guard.scope
              && Leads(ir, languages, Flows, guard.id, point.id)
              && AlwaysBefore(ir, languages, guard.id, point)
              && DecidesEitherWay(ir, languages, guard.id, point.id)
  {
    var g := GraphOfIr(ir, languages);
    RelationsAreSteps(ir, languages);
    if point :| IsPointOf(ir, languages, action, point) {
      assert point.id == ActionPoint(action);
      ReachIsLeads(ir, languages, Flows, Rel(g), guard.id, point.id);
      DominanceIsAlwaysBefore(ir, languages, guard, point);
      ControlIsDecision(ir, languages, guard.id, point.id);
      SamePoint(ir, languages, action, point);
    }
    if CrossScopeProves(g, guard, action) {
      var point := g.ops[ActionPoint(action)];
      GraphOperation(ir, languages, ActionPoint(action));
      assert IsPointOf(ir, languages, action, point);
    }
  }

  lemma SamePoint(ir: SemanticIR, languages: set<string>, action: Op, point: Op)
    requires UniqueIds(ir.operations) && IsPointOf(ir, languages, action, point)
    ensures forall other :: IsPointOf(ir, languages, action, other) ==> other == point
  {
    forall other | IsPointOf(ir, languages, action, other) ensures other == point {
      KeptOperation(ir, languages, point);
      KeptOperation(ir, languages, other);
    }
  }
}
