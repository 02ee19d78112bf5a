/** Temporal invariants over operations (StateMachineAnalyzer, smartbench/analysis/state_machine.py).

    A selector is any predicate on operations. */
module StateMachine {
  import opened Sequences
  import opened Walks
  import opened Ir
  import opened ControlFlow
  import opened Dominance
  import opened IcfgRuns
  import opened IcfgSearch
  import opened Icfg
  import opened IcfgTheorems

  datatype InvariantKind = RequireGuard | ForbidAction | RequireExit

  /** exits is the selector of exit operations; no analysis reads it. */
  datatype Invariant = Invariant(
    id: Id, kind: InvariantKind, event: Op -> bool, action: Op -> bool, guard: Option<Op -> bool>,
    exits: Op -> bool, interprocedural: bool, maxCallDepth: nat)

  /** What the constructor of an invariant checks. */
  predicate Accepted(inv: Invariant) {
    (inv.kind.RequireGuard? ==> inv.guard.Some?) && inv.maxCallDepth <= 16
  }

  datatype Missing = MissingGuard | ForbiddenAction | MissingExit

  function MissingFor(kind: InvariantKind): Missing {
    match kind
    case RequireGuard => MissingGuard
    case ForbidAction => ForbiddenAction
    case RequireExit => MissingExit
  }

  datatype Violation = Violation(invariantId: Id, scope: Id, event: Op, action: Op, missing: Missing,
          path: Option<IcfgPath>)

  predicate MatchesGuard(inv: Invariant, op: Op) {
    inv.guard.Some? && inv.guard.value(op)
  }

  // ---------- within one scope ----------

  /** _guard_proves_action */
  ghost predicate GuardProves(g: Graph, event: Op, guard: Op, action: Op) {
    if guard.kind.Branch? then BranchControlsSpec(g, guard.id, action.id)
    else DominatesBetweenSpec(g, event.id, guard.id, action.id)
  }

  /** The filter of _evaluate_scope on candidate guards. */
  ghost predicate Guards(g: Graph, inv: Invariant, event: Op, op: Op, action: Op) {
    && op.id != event.id && op.id != action.id && MatchesGuard(inv, op)
    && Reach(Rel(g), event.id, op.id) && Reach(Rel(g), op.id, action.id)
    && DominatesBetweenSpec(g, event.id, op.id, action.id)
    && GuardProves(g, event, op, action)
  }

  /** What a guard has to do: lie on every walk, and if it is a branch, control the action. */
  ghost predicate Protects(g: Graph, inv: Invariant, event: Op, op: Op, action: Op) {
    && op.id != event.id && op.id != action.id && MatchesGuard(inv, op)
    && EveryWalkVisits(g, event.id, op.id, action.id)
    && (op.kind.Branch? ==> BranchControlsSpec(g, op.id, action.id))
  }

  ghost predicate Violates(g: Graph, inv: Invariant, operations: seq<Op>, event: Op, action: Op) {
    && action.id != event.id && Reach(Rel(g), event.id, action.id)
    && (inv.kind.RequireGuard? ==> forall op :: op in operations ==> !Guards(g, inv, event, op, action))
  }

  /** The filters of the analyzer on a reachable pair say exactly what a guard has to do; its
      two reachability tests follow from dominance. */
  lemma GuardsMeansProtects(g: Graph, inv: Invariant, event: Op, op: Op, action: Op)
    requires WellFormed(g) && Reach(Rel(g), event.id, action.id)
    ensures Guards(g, inv, event, op, action) <==> Protects(g, inv, event, op, action)
  {
    if op.id != event.id && op.id != action.id && EveryWalkVisits(g, event.id, op.id, action.id) {
      var p :| WalkFromTo(Rel(g), p, event.id, action.id) && |p| > 1;
      var k :| 0 <= k < |p| && p[k] == op.id;
      WalkKeepsScope(g, p, k);
      ReachKeepsScope(g, event.id, action.id);
      DominatorLiesBetween(g, event.id, op.id, action.id);
    }
  }

  ghost function ActionViolations(
        g: Graph, inv: Invariant, scope: Id, operations: seq<Op>, event: Op, actions: seq<Op>): seq<Violation>
    decreases |actions|
  {
    if actions == [] then []
    else
      var action := actions[|actions| - 1];
      ActionViolations(g, inv, scope, operations, event, actions[..|actions| - 1]) +
      (if Violates(g, inv, operations, event, action)
       then [Violation(inv.id, scope, event, action, MissingFor(inv.kind), None)] else [])
  }

  ghost function EventViolations(
        g: Graph, inv: Invariant, scope: Id, operations: seq<Op>, events: seq<Op>, actions: seq<Op>): seq<Violation>
    decreases |events|
  {
    if events == [] then []
    else
      EventViolations(g, inv, scope, operations, events[..|events| - 1], actions) +
      ActionViolations(g, inv, scope, operations, events[|events| - 1], actions)
  }

  ghost function ScopeViolations(g: Graph, inv: Invariant, scope: Id, operations: seq<Op>): seq<Violation> {
    EventViolations(g, inv, scope, operations, Filter(inv.event, operations), Filter(inv.action, operations))
  }

  /** v reports the pair (event, action) under inv. */
  ghost predicate Reports(v: Violation, inv: Invariant, scope: Id, event: Op, action: Op) {
    v == Violation(inv.id, scope, event, action, MissingFor(inv.kind), None)
  }

  lemma {:induction false} ActionViolationsAre(
        g: Graph, inv: Invariant, scope: Id, operations: seq<Op>, event: Op, actions: seq<Op>, v: Violation)
    ensures v in ActionViolations(g, inv, scope, operations, event, actions) <==>
            v.action in actions && Reports(v, inv, scope, event, v.action) &&
              Violates(g, inv, operations, event, v.action)
    decreases |actions|
  {
    if actions != [] {
      SplitLast(actions);
      ActionViolationsAre(g, inv, scope, operations, event, actions[..|actions| - 1], v);
    }
  }

  lemma {:induction false} EventViolationsAre(
        g: Graph, inv: Invariant, scope: Id, operations: seq<Op>, events: seq<Op>, actions: seq<Op>,
        v: Violation)
    ensures v in EventViolations(g, inv, scope, operations, events, actions) <==>
            v.event in events && v.action in actions &&
            Reports(v, inv, scope, v.event, v.action) && Violates(g, inv, operations, v.event, v.action)
    decreases |events|
  {
    if events != [] {
      SplitLast(events);
      EventViolationsAre(g, inv, scope, operations, events[..|events| - 1], actions, v);
      ActionViolationsAre(g, inv, scope, operations, events[|events| - 1], actions, v);
    }
  }

  /** The guard verdict: a reachable pair of a guard invariant goes unreported exactly when some
      matching operation protects the action on every walk.  The other two kinds report every
      reachable pair. */
  lemma ScopeVerdict(g: Graph, inv: Invariant, scope: Id, operations: seq<Op>, event: Op, action: Op)
    requires WellFormed(g)
    requires event in operations && action in operations && inv.event(event) && inv.action(action)
    ensures Violation(inv.id, scope, event, action, MissingFor(inv.kind), None) in ScopeViolations(g, inv, scope,
            operations) <==>
            && action.id != event.id && Reach(Rel(g), event.id, action.id)
            && (inv.kind.RequireGuard? ==> forall op :: op in operations ==> !Protects(g, inv, event, op, action))
  {
    EventViolationsAre(g, inv, scope, operations, Filter(inv.event, operations), Filter(inv.action, operations),
                       Violation(inv.id, scope, event, action, MissingFor(inv.kind), None));
    if Reach(Rel(g), event.id, action.id) {
      forall op | op in operations ensures Guards(g, inv, event, op, action) <==> Protects(g, inv, event, op, action) {
        GuardsMeansProtects(g, inv, event, op, action);
      }
    }
  }

  /** A reported missing guard without matching branches comes with a walk for every candidate
      guard that misses it. */
  lemma EveryGuardIsAvoidable(g: Graph, inv: Invariant, scope: Id, operations: seq<Op>, v: Violation)
    requires WellFormed(g) && inv.kind.RequireGuard? && v in ScopeViolations(g, inv, scope, operations)
    ensures v.event in operations && v.action in operations && inv.event(v.event) && inv.action(v.action)
    ensures forall op ::
              && op in operations && MatchesGuard(inv, op) && !op.kind.Branch?
              && op.id != v.event.id && op.id != v.action.id ==>
              exists p :: WalkFromTo(Rel(g), p, v.event.id, v.action.id) && |p| > 1 && op.id !in p
  {
    EventViolationsAre(g, inv, scope, operations, Filter(inv.event, operations), Filter(inv.action, operations), v);
    forall op | op in operations && MatchesGuard(inv, op) && !op.kind.Branch? && op.id != v.event.id &&
      op.id != v.action.id
      ensures exists p :: WalkFromTo(Rel(g), p, v.event.id, v.action.id) && |p| > 1 && op.id !in p
    {
      GuardsMeansProtects(g, inv, v.event, op, v.action);
    }
  }

  method TestGuard(cfg: ControlFlowGraph, inv: Invariant, event: Op, op: Op, action: Op) returns (r: bool)
    requires cfg.Valid()
    modifies cfg
    ensures cfg.Valid() && (r <==> Guards(cfg.graph, inv, event, op, action))
  {
    if op.id == event.id || op.id == action.id || !MatchesGuard(inv, op) {
      return false;
    }
    var before := cfg.Reachable(event.id, op.id);
    var after := cfg.Reachable(op.id, action.id);
    var dominates := cfg.DominatesBetween(event.id, op.id, action.id);
    var proves := dominates;
    if op.kind.Branch? {
      proves := cfg.BranchControls(op.id, action.id);
    }
    return before && after && dominates && proves;
  }

  method AnyGuard(cfg: ControlFlowGraph, inv: Invariant, operations: seq<Op>, event: Op, action: Op) returns (any: bool)
    requires cfg.Valid()
    modifies cfg
    ensures cfg.Valid() && (any <==> exists op :: op in operations && Guards(cfg.graph, inv, event, op, action))
  {
    any := false;
    for i := 0 to |operations|
      invariant cfg.Valid()
      invariant any <==> exists op :: op in operations[..i] && Guards(cfg.graph, inv, event, op, action)
    {
      assert operations[..i + 1] == operations[..i] + [operations[i]];
      var guards := TestGuard(cfg, inv, event, operations[i], action);
      any := any || guards;
    }
    assert operations[..|operations|] == operations;
  }

  /** The body of the loops over events and actions. */
  method EvaluateScopePair(cfg: ControlFlowGraph, inv: Invariant, operations: seq<Op>, event: Op, action: Op)
    returns (r: bool)
    requires cfg.Valid()
    modifies cfg
    ensures cfg.Valid() && (r <==> Violates(cfg.graph, inv, operations, event, action))
  {
    if action.id == event.id {
      return false;
    }
    var reached := cfg.Reachable(event.id, action.id);
    if !reached || !inv.kind.RequireGuard? {
      return reached;
    }
    var guarded := AnyGuard(cfg, inv, operations, event, action);
    return !guarded;
  }

  /** The inner loop of _evaluate_scope. */
  method EvaluateEvent(cfg: ControlFlowGraph, inv: Invariant, scope: Id, operations: seq<Op>, event: Op,
          actions: seq<Op>)
    returns (violations: seq<Violation>)
    requires cfg.Valid()
    modifies cfg
    ensures cfg.Valid() && violations == ActionViolations(cfg.graph, inv, scope, operations, event, actions)
  {
    violations := [];
    for j := 0 to |actions|
      invariant cfg.Valid() && violations == ActionViolations(cfg.graph, inv, scope, operations, event, actions[..j])
    {
      assert actions[..j + 1][..j] == actions[..j];
      var violated := EvaluateScopePair(cfg, inv, operations, event, actions[j]);
      if violated {
        violations := violations + [Violation(inv.id, scope, event, actions[j], MissingFor(inv.kind), None)];
      }
    }
    assert actions[..|actions|] == actions;
  }

  /** The loop over events. */
  method EvaluateEvents(cfg: ControlFlowGraph, inv: Invariant, scope: Id, operations: seq<Op>, events: seq<Op>,
          actions: seq<Op>)
    returns (violations: seq<Violation>)
    requires cfg.Valid()
    modifies cfg
    ensures cfg.Valid() && violations == EventViolations(cfg.graph, inv, scope, operations, events, actions)
  {
    violations := [];
    for i := 0 to |events|
      invariant cfg.Valid() && violations == EventViolations(cfg.graph, inv, scope, operations, events[..i], actions)
    {
      assert events[..i + 1][..i] == events[..i];
      var more := EvaluateEvent(cfg, inv, scope, operations, events[i], actions);
      violations := violations + more;
    }
    assert events[..|events|] == events;
  }

  /** _evaluate_scope */
  method EvaluateScope(cfg: ControlFlowGraph, inv: Invariant, scope: Id, operations: seq<Op>)
    returns (violations: seq<Violation>)
    requires cfg.Valid() && Accepted(inv)
    modifies cfg
    ensures cfg.Valid() && violations == ScopeViolations(cfg.graph, inv, scope, operations)
  {
    var events, actions := Filter(inv.event, operations), Filter(inv.action, operations);
    violations := EvaluateEvents(cfg, inv, scope, operations, events, actions);
  }

  // ---------- across scopes ----------

  const DEFAULT_STEPS: nat := 10_000

  /** {operation.id: operation for operation in operations if operation.id in path.operation_ids} */
  function OnPath(operations: seq<Op>, path: IcfgPath): map<Id, Op> {
    OpsById(Filter((op: Op) => op.id in path.operationIds, operations))
  }

  function GuardsOn(inv: Invariant, event: Op, action: Op, onPath: map<Id, Op>, ids: seq<Id>): seq<Op>
    decreases |ids|
  {
    if ids == [] then []
    else
      var id := ids[|ids| - 1];
      GuardsOn(inv, event, action, onPath, ids[..|ids| - 1]) +
      (if id in onPath && id != event.id && id != action.id && MatchesGuard(inv, onPath[id]) then [onPath[id]] else [])
  }

  lemma {:induction false} GuardsOnAre(inv: Invariant, event: Op, action: Op, onPath: map<Id, Op>, ids: seq<Id>)
    ensures forall op :: op in GuardsOn(inv, event, action, onPath, ids) <==>
              exists id :: id in ids && id in onPath && onPath[id] == op && id != event.id && id != action.id &&
                MatchesGuard(inv, op)
    decreases |ids|
  {
    if ids != [] {
      SplitLast(ids);
      GuardsOnAre(inv, event, action, onPath, ids[..|ids| - 1]);
    }
  }

  /** A matching operation strictly inside a path. */
  predicate InnerGuard(inv: Invariant, path: IcfgPath, event: Op, op: Op, action: Op) {
    op.id in path.operationIds && op.id != event.id && op.id != action.id && MatchesGuard(inv, op)
  }

  lemma PathGuardsAre(inv: Invariant, operations: seq<Op>, path: IcfgPath, event: Op, action: Op)
    requires UniqueIds(operations)
    ensures forall op :: op in GuardsOn(inv, event, action, OnPath(operations, path), path.operationIds) <==>
              op in operations && InnerGuard(inv, path, event, op, action)
  {
    var inside := (op: Op) => op.id in path.operationIds;
    GuardsOnAre(inv, event, action, OnPath(operations, path), path.operationIds);
    FilterKeepsUnique(inside, operations);
    forall op | op in operations && op.id in path.operationIds
      ensures op.id in OnPath(operations, path) && OnPath(operations, path)[op.id] == op
    {
      UniqueLookup(Filter(inside, operations), op);
    }
  }

  /** The operation whose control decides whether an embedded action runs. */
  function ActionPoint(action: Op): Id {
    if action.host != NO_ID then action.host else action.id
  }

  /** _cross_scope_guard_proves_action */
  ghost predicate CrossScopeProves(g: Graph, guard: Op, action: Op) {
    && guard.scope == action.scope
    && Reach(Rel(g), guard.id, ActionPoint(action))
    && DominatesSpec(g, guard.id, ActionPoint(action))
    && BranchControlsSpec(g, guard.id, ActionPoint(action))
  }

  datatype Outcome = NoPath(exhausted: bool) | Proven(path: IcfgPath) | Undecided(path: IcfgPath) |
          Violated(path: IcfgPath)

  /** The graph a path query walks and its successor table. */
  datatype Traversal = Traversal(graph: View, successors: map<Id, seq<Jump>>)

  ghost function TraversalOf(icfg: InterproceduralControlFlowGraph): Traversal {
    Traversal(icfg.view, icfg.successors)
  }

  /** The search has followed its whole budget of distinct transitions from reachable states. */
  ghost predicate BudgetSpent(view: Traversal, depth: nat, source: Id) {
    exists n: nat :: n >= DEFAULT_STEPS && AtLeastTransitions(view.graph, view.successors, depth, source, n)
  }

  /** One pair and the outcome the analyzer reached for it. */
  datatype Decision = Decision(event: Op, action: Op, outcome: Outcome)

  /** What each outcome for a pair in different scopes has to mean. */
  ghost predicate Justified(g: Graph, view: Traversal, inv: Invariant, operations: seq<Op>, d: Decision) {
    match d.outcome
    case NoPath(exhausted) =>
      if exhausted then NoRun(view.graph, inv.maxCallDepth, d.event.id, d.action.id)
      else BudgetSpent(view, inv.maxCallDepth, d.event.id)
    case Proven(path) =>
      && ShortestRun(view.graph, inv.maxCallDepth, d.event.id, d.action.id, path) && inv.kind.RequireGuard?
      && exists op ::
           op in operations && InnerGuard(inv, path, d.event, op, d.action) && CrossScopeProves(g, op, d.action)
    case Undecided(path) =>
      && ShortestRun(view.graph, inv.maxCallDepth, d.event.id, d.action.id, path) && inv.kind.RequireGuard?
      && (exists op :: op in operations && InnerGuard(inv, path, d.event, op, d.action))
      && forall op :: op in operations && InnerGuard(inv, path, d.event, op, d.action) ==>
         !CrossScopeProves(g, op, d.action)
    case Violated(path) =>
      && ShortestRun(view.graph, inv.maxCallDepth, d.event.id, d.action.id, path)
      && (inv.kind.RequireGuard? ==> forall op :: op in operations ==> !InnerGuard(inv, path, d.event, op, d.action))
  }

  predicate CrossesScopes(event: Op, action: Op) {
    event.scope != action.scope && event.id != action.id
  }

  function PairsWith(event: Op, actions: seq<Op>): seq<(Op, Op)>
    decreases |actions|
  {
    if actions == [] then []
    else
      PairsWith(event, actions[..|actions| - 1]) +
      (if CrossesScopes(event, actions[|actions| - 1]) then [(event, actions[|actions| - 1])] else [])
  }

  function PairsOf(events: seq<Op>, actions: seq<Op>): seq<(Op, Op)>
    decreases |events|
  {
    if events == [] then [] else PairsOf(events[..|events| - 1], actions) + PairsWith(events[|events| - 1], actions)
  }

  /** The pairs decided, in order. */
  function Decided(ds: seq<Decision>): seq<(Op, Op)>
    decreases |ds|
  {
    if ds == [] then [] else Decided(ds[..|ds| - 1]) + [(ds[|ds| - 1].event, ds[|ds| - 1].action)]
  }

  datatype Tally = Tally(violations: seq<Violation>, paths: nat, unknowns: nat)

  function AddDecision(inv: Invariant, t: Tally, d: Decision): Tally {
    match d.outcome
    case NoPath(_) => t
    case Proven(_) => t.(paths := t.paths + 1)
    case Undecided(_) => t.(paths := t.paths + 1, unknowns := t.unknowns + 1)
    case Violated(path) =>
      t.(paths := t.paths + 1,
         violations := t.violations +
           [Violation(inv.id, d.event.scope, d.event, d.action, MissingFor(inv.kind), Some(path))])
  }

  function Tallied(inv: Invariant, ds: seq<Decision>): Tally
    decreases |ds|
  {
    if ds == [] then Tally([], 0, 0) else AddDecision(inv, Tallied(inv, ds[..|ds| - 1]), ds[|ds| - 1])
  }

  method TestCrossScope(cfg: ControlFlowGraph, guard: Op, action: Op) returns (r: bool)
    requires cfg.Valid()
    modifies cfg
    ensures cfg.Valid() && (r <==> CrossScopeProves(cfg.graph, guard, action))
  {
    if guard.scope != action.scope {
      return false;
    }
    var point := ActionPoint(action);
    var reached := cfg.Reachable(guard.id, point);
    var dominates := cfg.Dominates(guard.id, point);
    var controls := cfg.BranchControls(guard.id, point);
    return reached && dominates && controls;
  }

  method AnyProves(cfg: ControlFlowGraph, guards: seq<Op>, action: Op) returns (any: bool)
    requires cfg.Valid()
    modifies cfg
    ensures cfg.Valid() && (any <==> exists op :: op in guards && CrossScopeProves(cfg.graph, op, action))
  {
    any := false;
    for i := 0 to |guards|
      invariant cfg.Valid()
      invariant any <==> exists op :: op in guards[..i] && CrossScopeProves(cfg.graph, op, action)
    {
      assert guards[..i + 1] == guards[..i] + [guards[i]];
      var proves := TestCrossScope(cfg, guards[i], action);
      any := any || proves;
    }
    assert guards[..|guards|] == guards;
  }

  /** The body of the loops of _evaluate_interprocedural. */
  method EvaluatePair(
        cfg: ControlFlowGraph, icfg: InterproceduralControlFlowGraph, inv: Invariant, operations: seq<Op>,
        event: Op, action: Op)
    returns (o: Outcome)
    requires cfg.Valid() && icfg.Built() && Accepted(inv) && UniqueIds(operations) && event.id in icfg.operations
    modifies cfg
    ensures cfg.Valid() && Justified(cfg.graph, TraversalOf(icfg), inv, operations, Decision(event, action, o))
  {
    var query, steps, exhausted := icfg.Path(event.id, action.id, inv.maxCallDepth, DEFAULT_STEPS);
    if !query.Found? {
      return NoPath(exhausted);
    }
    var path := query.path;
    if !inv.kind.RequireGuard? {
      return Violated(path);
    }
    var guards := GuardsOn(inv, event, action, OnPath(operations, path), path.operationIds);
    PathGuardsAre(inv, operations, path, event, action);
    if guards == [] {
      return Violated(path);
    }
    assert guards[0] in guards;
    var proven := AnyProves(cfg, guards, action);
    return if proven then Proven(path) else Undecided(path);
  }

  /** The report so far: what was decided, in order, and its tally. */
  ghost predicate Reported(
        g: Graph, view: Traversal, inv: Invariant, operations: seq<Op>, pairs: seq<(Op, Op)>, t: Tally,
        ds: seq<Decision>) {
    && Decided(ds) == pairs && t == Tallied(inv, ds)
    && (forall d :: d in ds ==> Justified(g, view, inv, operations, d))
  }

  lemma ReportOneMore(
        g: Graph, view: Traversal, inv: Invariant, operations: seq<Op>, pairs: seq<(Op, Op)>, t: Tally,
        ds: seq<Decision>, d: Decision)
    requires Reported(g, view, inv, operations, pairs, t, ds) && Justified(g, view, inv, operations, d)
    ensures Reported(g, view, inv, operations, pairs + [(d.event, d.action)], AddDecision(inv, t, d), ds + [d])
  {
    assert (ds + [d])[..|ds|] == ds;
  }

  /** The inner loop of _evaluate_interprocedural. */
  method EvaluateEventAcross(
      cfg: ControlFlowGraph, icfg: InterproceduralControlFlowGraph, inv: Invariant, operations: seq<Op>, event: Op,
      actions: seq<Op>,
      start: Tally, ghost pairs: seq<(Op, Op)>, ghost before: seq<Decision>)
    returns (t: Tally, ghost ds: seq<Decision>)
    requires cfg.Valid() && icfg.Built() && Accepted(inv) && UniqueIds(operations) && event.id in icfg.operations
    requires Reported(cfg.graph, TraversalOf(icfg), inv, operations, pairs, start, before)
    modifies cfg
    ensures cfg.Valid()
    ensures Reported(cfg.graph, TraversalOf(icfg), inv, operations, pairs + PairsWith(event, actions), t, ds)
  {
    t, ds := start, before;
    assert pairs + [] == pairs;
    for j := 0 to |actions|
      invariant cfg.Valid()
      invariant Reported(cfg.graph, TraversalOf(icfg), inv, operations, pairs + PairsWith(event, actions[..j]), t, ds)
    {
      ghost var done := pairs + PairsWith(event, actions[..j]);
      assert actions[..j + 1][..j] == actions[..j];
      if CrossesScopes(event, actions[j]) {
        var o := EvaluatePair(cfg, icfg, inv, operations, event, actions[j]);
        var d := Decision(event, actions[j], o);
        ReportOneMore(cfg.graph, TraversalOf(icfg), inv, operations, done, t, ds, d);
        t, ds := AddDecision(inv, t, d), ds + [d];
      }
      assert pairs + PairsWith(event, actions[..j + 1]) ==
             if CrossesScopes(event, actions[j]) then done + [(event, actions[j])] else done;
    }
    assert actions[..|actions|] == actions;
  }

  /** The loop over events. */
  method EvaluateEventsAcross(
      cfg: ControlFlowGraph, icfg: InterproceduralControlFlowGraph, inv: Invariant, operations: seq<Op>,
      events: seq<Op>, actions: seq<Op>)
    returns (t: Tally, ghost ds: seq<Decision>)
    requires cfg.Valid() && icfg.Built() && Accepted(inv) && UniqueIds(operations)
    requires forall op :: op in events ==> op.id in icfg.operations
    modifies cfg
    ensures cfg.Valid() && Reported(cfg.graph, TraversalOf(icfg), inv, operations, PairsOf(events, actions), t, ds)
  {
    t, ds := Tally([], 0, 0), [];
    for i := 0 to |events|
      invariant cfg.Valid() &&
                Reported(cfg.graph, TraversalOf(icfg), inv, operations, PairsOf(events[..i], actions), t, ds)
    {
      assert events[i] in events && events[..i + 1][..i] == events[..i];
      t, ds := EvaluateEventAcross(cfg, icfg, inv, operations, events[i], actions, t, PairsOf(events[..i], actions),
        ds);
    }
    assert events[..|events|] == events;
  }

  /** _evaluate_interprocedural */
  method EvaluateInterprocedural(
        cfg: ControlFlowGraph, icfg: InterproceduralControlFlowGraph, inv: Invariant, operations: seq<Op>)
    returns (t: Tally, ghost ds: seq<Decision>)
    requires cfg.Valid() && icfg.Built() && Accepted(inv) && UniqueIds(operations)
    requires forall op :: op in operations ==> op.id in icfg.operations
    modifies cfg
    ensures cfg.Valid()
    ensures Reported(cfg.graph, TraversalOf(icfg), inv, operations,
            PairsOf(Filter(inv.event, operations), Filter(inv.action, operations)), t, ds)
  {
    var events, actions := Filter(inv.event, operations), Filter(inv.action, operations);
    t, ds := EvaluateEventsAcross(cfg, icfg, inv, operations, events, actions);
  }

  // ---------- what interprocedural reports mean ----------

  function Proofs(ds: seq<Decision>): nat
    decreases |ds|
  {
    if ds == [] then 0 else Proofs(ds[..|ds| - 1]) + (if ds[|ds| - 1].outcome.Proven? then 1 else 0)
  }

  /** Every evaluated path is a violation, an unknown, or a proof. */
  lemma {:induction false} PathsAreAccounted(inv: Invariant, ds: seq<Decision>)
    ensures var t := Tallied(inv, ds); t.paths == |t.violations| + t.unknowns + Proofs(ds)
    decreases |ds|
  {
    if ds != [] { PathsAreAccounted(inv, ds[..|ds| - 1]); }
  }

  lemma {:induction false} ViolationsAreDecided(inv: Invariant, ds: seq<Decision>, v: Violation)
    requires v in Tallied(inv, ds).violations
    ensures v.path.Some? && Decision(v.event, v.action, Violated(v.path.value)) in ds
    decreases |ds|
  {
    if ds != [] {
      SplitLast(ds);
      if v in Tallied(inv, ds[..|ds| - 1]).violations { ViolationsAreDecided(inv, ds[..|ds| - 1], v); }
    }
  }

  /** A missing-guard violation carries a realizable path from its event to its action, within
      the depth bound, and no analyzed matching guard lies strictly inside it. */
  lemma MissingGuardIsWitnessed(
      g: Graph, view: Traversal, inv: Invariant, operations: seq<Op>, pairs: seq<(Op, Op)>, t: Tally, ds: seq<Decision>,
      v: Violation)
    requires Reported(g, view, inv, operations, pairs, t, ds) && v in t.violations && inv.kind.RequireGuard?
    ensures v.path.Some? && ShortestRun(view.graph, inv.maxCallDepth, v.event.id, v.action.id, v.path.value)
    ensures forall op :: op in operations ==> !InnerGuard(inv, v.path.value, v.event, op, v.action)
    ensures exists arcs: seq<Jump> ::
              && v.path.value.arcKinds == KindsOf(arcs) && OpenCalls(arcs).Open?
              && |OpenCalls(arcs).calls| == v.path.value.callDepth <= inv.maxCallDepth
  {
    ViolationsAreDecided(inv, ds, v);
    assert Justified(g, view, inv, operations, Decision(v.event, v.action, Violated(v.path.value)));
    FoundPathIsRealizable(view.graph, inv.maxCallDepth, v.event.id, v.action.id, v.path.value);
  }

  /** Seen through the source alone: a missing-guard violation comes with a walk of the program
      from its event to its action that skips every call it returns from and enters as many calls
      as the path leaves open, on which no analyzed operation but the two ends matches the guard. */
  lemma MissingGuardErasesToWalk(
        ir: SemanticIR, g: Graph, view: Traversal, inv: Invariant, operations: seq<Op>, pairs: seq<(Op, Op)>, t: Tally,
        ds: seq<Decision>, v: Violation)
    returns (w: seq<Id>, open: seq<bool>)
    requires Traverses(view, ir)
    requires Reported(g, view, inv, operations, pairs, t, ds) && v in t.violations && inv.kind.RequireGuard?
    ensures v.path.Some? && CountOpen(open) == v.path.value.callDepth <= inv.maxCallDepth
    ensures SourceWalk(ir, false, w, open) && w[0] == v.event.id && w[|w| - 1] == v.action.id
    ensures forall op :: op in operations && op.id in w && op.id != v.event.id && op.id != v.action.id ==>
              !MatchesGuard(inv, op)
  {
    MissingGuardIsWitnessed(g, view, inv, operations, pairs, t, ds, v);
    w, open := PathsEraseToSourceWalks(
      view.graph, ir, false, inv.maxCallDepth, v.event.id, v.action.id, v.path.value);
    forall op | op in operations && op.id in w && op.id != v.event.id && op.id != v.action.id
      ensures !MatchesGuard(inv, op)
    {
      assert op.id in v.path.value.operationIds && !InnerGuard(inv, v.path.value, v.event, op, v.action);
    }
  }

  // ---------- analyze ----------

  /** The operations analyze looks at: in the language filter and inside a scope. */
  function Analyzed(ir: SemanticIR, languages: set<string>): seq<Op> {
    Filter((op: Op) => Kept(op, languages) && op.scope != NO_ID, ir.operations)
  }

  function InScope(analyzed: seq<Op>, scope: Id): (r: seq<Op>)
    ensures forall op :: op in r <==> op in analyzed && op.scope == scope
  {
    SortOps(Filter((op: Op) => op.scope == scope, analyzed))
  }

  function ScopesOf(analyzed: seq<Op>): set<Id> {
    set op | op in analyzed :: op.scope
  }

  ghost function InvariantsIn(g: Graph, scope: Id, operations: seq<Op>, invariants: seq<Invariant>): seq<Violation>
    decreases |invariants|
  {
    if invariants == [] then []
    else
      var inv := invariants[|invariants| - 1];
      InvariantsIn(g, scope, operations, invariants[..|invariants| - 1]) +
      (if inv.interprocedural then [] else ScopeViolations(g, inv, scope, operations))
  }

  ghost function ScopesIn(g: Graph, analyzed: seq<Op>, scopes: seq<Id>, invariants: seq<Invariant>): seq<Violation>
    decreases |scopes|
  {
    if scopes == [] then []
    else
      var scope := scopes[|scopes| - 1];
      ScopesIn(g, analyzed, scopes[..|scopes| - 1], invariants) +
        InvariantsIn(g, scope, InScope(analyzed, scope), invariants)
  }

  datatype Report = Report(violations: seq<Violation>, invariants: nat, scopes: nat, paths: nat, unknowns: nat)

  method EvaluateInvariants(
        cfg: ControlFlowGraph, scope: Id, operations: seq<Op>, invariants: seq<Invariant>)
          returns (violations: seq<Violation>)
    requires cfg.Valid() && forall inv :: inv in invariants ==> Accepted(inv)
    modifies cfg
    ensures cfg.Valid() && violations == InvariantsIn(cfg.graph, scope, operations, invariants)
  {
    violations := [];
    for i := 0 to |invariants|
      invariant cfg.Valid() && violations == InvariantsIn(cfg.graph, scope, operations, invariants[..i])
    {
      assert invariants[..i + 1][..i] == invariants[..i];
      if !invariants[i].interprocedural {
        assert invariants[i] in invariants;
        var more := EvaluateScope(cfg, invariants[i], scope, operations);
        violations := violations + more;
      }
    }
    assert invariants[..|invariants|] == invariants;
  }

  method EvaluateScopes(
        cfg: ControlFlowGraph, analyzed: seq<Op>, scopes: seq<Id>, invariants: seq<Invariant>)
          returns (violations: seq<Violation>)
    requires cfg.Valid() && forall inv :: inv in invariants ==> Accepted(inv)
    modifies cfg
    ensures cfg.Valid() && violations == ScopesIn(cfg.graph, analyzed, scopes, invariants)
  {
    violations := [];
    for i := 0 to |scopes|
      invariant cfg.Valid() && violations == ScopesIn(cfg.graph, analyzed, scopes[..i], invariants)
    {
      assert scopes[..i + 1][..i] == scopes[..i];
      var more := EvaluateInvariants(cfg, scopes[i], InScope(analyzed, scopes[i]), invariants);
      violations := violations + more;
    }
    assert scopes[..|scopes|] == scopes;
  }

  /** One interprocedural invariant with its tally and decisions. */
  datatype Across = Across(inv: Invariant, tally: Tally, ds: seq<Decision>)

  /** The traversal is that of the program, synchronous calls only. */
  ghost predicate Traverses(view: Traversal, ir: SemanticIR) {
    BuiltFrom(view.graph, ir, false) && view.successors == SuccessorsOf(ir, false)
  }

  ghost predicate AcrossHolds(g: Graph, view: Traversal, operations: seq<Op>, a: Across) {
    Reported(g, view, a.inv, operations, PairsOf(Filter(a.inv.event, operations), Filter(a.inv.action, operations)),
      a.tally, a.ds)
  }

  function AddTally(r: Report, t: Tally): Report {
    r.(violations := r.violations + t.violations, paths := r.paths + t.paths, unknowns := r.unknowns + t.unknowns)
  }

  ghost function AddAcross(r: Report, runs: seq<Across>): Report
    decreases |runs|
  {
    if runs == [] then r
    else
      AddTally(AddAcross(r, runs[..|runs| - 1]), runs[|runs| - 1].tally)
  }

  ghost function InvariantsOf(runs: seq<Across>): seq<Invariant>
    decreases |runs|
  {
    if runs == [] then [] else InvariantsOf(runs[..|runs| - 1]) + [runs[|runs| - 1].inv]
  }

  ghost function Interprocedural(invariants: seq<Invariant>): seq<Invariant>
    decreases |invariants|
  {
    if invariants == [] then []
    else
      var inv := invariants[|invariants| - 1];
      Interprocedural(invariants[..|invariants| - 1]) + (if inv.interprocedural then [inv] else [])
  }

  /** The interprocedural part of a report: one run per interprocedural invariant, in order. */
  ghost predicate AcrossReport(
        g: Graph, view: Traversal, operations: seq<Op>, invariants: seq<Invariant>, start: Report, r: Report,
        runs: seq<Across>) {
    && InvariantsOf(runs) == Interprocedural(invariants) && r == AddAcross(start, runs)
    && forall a :: a in runs ==> AcrossHolds(g, view, operations, a)
  }

  lemma AcrossOneMore(
        g: Graph, view: Traversal, operations: seq<Op>, invariants: seq<Invariant>, inv: Invariant, start: Report,
        r: Report, runs: seq<Across>, a: Across)
    requires AcrossReport(g, view, operations, invariants, start, r, runs) && AcrossHolds(g, view, operations, a)
    requires inv.interprocedural && a.inv == inv
    ensures AcrossReport(g, view, operations, invariants + [inv], start, AddTally(r, a.tally), runs + [a])
  {
    assert (runs + [a])[..|runs|] == runs && (invariants + [inv])[..|invariants|] == invariants;
  }

  lemma AcrossSame(
        g: Graph, view: Traversal, operations: seq<Op>, invariants: seq<Invariant>, inv: Invariant, start: Report,
        r: Report, runs: seq<Across>)
    requires AcrossReport(g, view, operations, invariants, start, r, runs)
    ensures !inv.interprocedural ==> AcrossReport(g, view, operations, invariants + [inv], start, r, runs)
  {
    assert (invariants + [inv])[..|invariants|] == invariants;
  }

  method EvaluateAcross(
        cfg: ControlFlowGraph, icfg: InterproceduralControlFlowGraph, operations: seq<Op>,
        invariants: seq<Invariant>, start: Report)
    returns (r: Report, ghost runs: seq<Across>)
    requires cfg.Valid() && icfg.Built() && UniqueIds(operations)
    requires forall inv :: inv in invariants ==> Accepted(inv)
    requires forall op :: op in operations ==> op.id in icfg.operations
    modifies cfg
    ensures cfg.Valid() && AcrossReport(cfg.graph, TraversalOf(icfg), operations, invariants, start, r, runs)
  {
    r, runs := start, [];
    for i := 0 to |invariants|
      invariant cfg.Valid() && AcrossReport(cfg.graph, TraversalOf(icfg), operations, invariants[..i], start, r, runs)
    {
      assert invariants[..i + 1] == invariants[..i] + [invariants[i]];
      AcrossSame(cfg.graph, TraversalOf(icfg), operations, invariants[..i], invariants[i], start, r, runs);
      if invariants[i].interprocedural {
        assert invariants[i] in invariants;
        var t, ds := EvaluateInterprocedural(cfg, icfg, invariants[i], operations);
        ghost var a := Across(invariants[i], t, ds);
        AcrossOneMore(cfg.graph, TraversalOf(icfg), operations, invariants[..i], invariants[i], start, r, runs, a);
        r, runs := AddTally(r, t), runs + [a];
      }
    }
    assert invariants[..|invariants|] == invariants;
  }

  method EvaluateAcrossProgram(
        cfg: ControlFlowGraph, ir: SemanticIR, operations: seq<Op>, invariants: seq<Invariant>, start: Report)
    returns (r: Report, ghost view: Traversal, ghost runs: seq<Across>)
    requires cfg.Valid() && UniqueIds(ir.operations) && UniqueIds(operations)
    requires forall inv :: inv in invariants ==> Accepted(inv)
    requires forall op :: op in operations ==> op in ir.operations
    modifies cfg
    ensures cfg.Valid() && Traverses(view, ir)
    ensures AcrossReport(cfg.graph, view, operations, invariants, start, r, runs)
  {
    var icfg := new InterproceduralControlFlowGraph(ir, false);
    view := TraversalOf(icfg);
    assert icfg.operations == OpsById(ir.operations);
    r, runs := EvaluateAcross(cfg, icfg, operations, invariants, start);
  }

  lemma AnalyzedFacts(ir: SemanticIR, languages: set<string>)
    requires UniqueIds(ir.operations)
    ensures UniqueIds(SortOps(Analyzed(ir, languages)))
    ensures forall op :: op in SortOps(Analyzed(ir, languages)) ==> op in ir.operations
  {
    FilterKeepsUnique((op: Op) => Kept(op, languages) && op.scope != NO_ID, ir.operations);
    SortOpsKeepsUnique(Analyzed(ir, languages));
  }

  /** A report of the invariants: the intraprocedural part, scope by scope over the filtered graph,
      followed by one run per interprocedural invariant over the ICFG of the whole program. */
  ghost predicate IsReport(
        ir: SemanticIR, invariants: seq<Invariant>, languages: set<string>, r: Report, view: Traversal,
        runs: seq<Across>) {
    var g, analyzed := GraphOfIr(ir, languages), Analyzed(ir, languages);
    var scopes := SortedSet(ScopesOf(analyzed));
    && (runs != [] ==> Traverses(view, ir))
    && AcrossReport(g, view, SortOps(analyzed), invariants,
                    Report(ScopesIn(g, analyzed, scopes, invariants), |invariants|, |scopes|, 0, 0), r, runs)
  }

  /** The interprocedural part: the ICFG is built only when some invariant asks for it. */
  method EvaluateAcrossIfAsked(
        cfg: ControlFlowGraph, ir: SemanticIR, languages: set<string>, invariants: seq<Invariant>, start: Report)
    returns (r: Report, ghost view: Traversal, ghost runs: seq<Across>)
    requires cfg.Valid() && UniqueIds(ir.operations) && forall inv :: inv in invariants ==> Accepted(inv)
    modifies cfg
    ensures AcrossReport(cfg.graph, view, SortOps(Analyzed(ir, languages)), invariants, start, r, runs)
    ensures runs != [] ==> Traverses(view, ir)
  {
    if exists i :: 0 <= i < |invariants| && invariants[i].interprocedural {
      AnalyzedFacts(ir, languages);
      r, view, runs := EvaluateAcrossProgram(cfg, ir, SortOps(Analyzed(ir, languages)), invariants, start);
    } else {
      NoneInterprocedural(invariants);
      r, view, runs := start, Traversal(View(map[], {}, map[], map[]), map[]), [];
    }
  }

  /** analyze */
  method Analyze(ir: SemanticIR, invariants: seq<Invariant>, languages: set<string>) returns (r: Report)
    requires UniqueIds(ir.operations) && forall inv :: inv in invariants ==> Accepted(inv)
    ensures exists view, runs :: IsReport(ir, invariants, languages, r, view, runs)
  {
    var cfg := FromIr(ir, languages);
    var analyzed := Analyzed(ir, languages);
    var scopes := SortedSet(ScopesOf(analyzed));
    var violations := EvaluateScopes(cfg, analyzed, scopes, invariants);
    ghost var view, runs;
    r, view, runs :=
      EvaluateAcrossIfAsked(cfg, ir, languages, invariants, Report(violations, |invariants|, |scopes|, 0, 0));
    assert IsReport(ir, invariants, languages, r, view, runs);
  }

  lemma {:induction false} NoneInterprocedural(invariants: seq<Invariant>)
    requires forall inv :: inv in invariants ==> !inv.interprocedural
    ensures Interprocedural(invariants) == []
    decreases |invariants|
  {
    if invariants != [] {
      SplitLast(invariants);
      NoneInterprocedural(invariants[..|invariants| - 1]);
    }
  }

  // ---------- the intraprocedural part of a report ----------

  /** v reports a pair of the scope that violates one of its intraprocedural invariants. */
  ghost predicate DueIn(g: Graph, scope: Id, operations: seq<Op>, invariants: seq<Invariant>, v: Violation) {
    exists inv :: inv in invariants && !inv.interprocedural && v in ScopeViolations(g, inv, scope, operations)
  }

  lemma {:induction false} InvariantsInAre(g: Graph, scope: Id, operations: seq<Op>, invariants: seq<Invariant>,
          v: Violation)
    ensures v in InvariantsIn(g, scope, operations, invariants) <==> DueIn(g, scope, operations, invariants, v)
    decreases |invariants|
  {
    if invariants != [] {
      SplitLast(invariants);
      InvariantsInAre(g, scope, operations, invariants[..|invariants| - 1], v);
    }
  }

  lemma {:induction false} ScopesInAre(g: Graph, analyzed: seq<Op>, scopes: seq<Id>, invariants: seq<Invariant>,
          v: Violation)
    ensures v in ScopesIn(g, analyzed, scopes, invariants) <==>
            v.scope in scopes && DueIn(g, v.scope, InScope(analyzed, v.scope), invariants, v)
    decreases |scopes|
  {
    if scopes != [] {
      SplitLast(scopes);
      var scope := scopes[|scopes| - 1];
      ScopesInAre(g, analyzed, scopes[..|scopes| - 1], invariants, v);
      InvariantsInAre(g, scope, InScope(analyzed, scope), invariants, v);
      forall inv | v in ScopeViolations(g, inv, scope, InScope(analyzed, scope)) ensures v.scope == scope {
        EventViolationsAre(g, inv, scope, InScope(analyzed, scope), Filter(inv.event, InScope(analyzed, scope)),
          Filter(inv.action, InScope(analyzed, scope)), v);
      }
    }
  }

  lemma LoneInvariant(g: Graph, scope: Id, operations: seq<Op>, inv: Invariant, v: Violation)
    requires !inv.interprocedural
    ensures DueIn(g, scope, operations, [inv], v) <==> v in ScopeViolations(g, inv, scope, operations)
  {
    assert inv in [inv];
  }

  /** The report on a pair of analyzed operations of one scope, read through walks: under an
      intraprocedural guard invariant it is reported exactly when it is reachable and no matching
      operation of the scope protects it. */
  lemma ReportVerdict(g: Graph, analyzed: seq<Op>, inv: Invariant, event: Op, action: Op)
    requires WellFormed(g) && !inv.interprocedural
    requires event in analyzed && action in analyzed && event.scope == action.scope && inv.event(event) &&
             inv.action(action)
    ensures Violation(inv.id, event.scope, event, action, MissingFor(inv.kind), None) in ScopesIn(g, analyzed,
            SortedSet(ScopesOf(analyzed)), [inv]) <==>
            && action.id != event.id && Reach(Rel(g), event.id, action.id)
            && (inv.kind.RequireGuard? ==> forall op :: op in InScope(analyzed, event.scope) ==>
               !Protects(g, inv, event, op, action))
  {
    var v := Violation(inv.id, event.scope, event, action, MissingFor(inv.kind), None);
    var operations := InScope(analyzed, event.scope);
    assert event.scope in SortedSet(ScopesOf(analyzed));
    ScopesInAre(g, analyzed, SortedSet(ScopesOf(analyzed)), [inv], v);
    LoneInvariant(g, event.scope, operations, inv, v);
    ScopeVerdict(g, inv, event.scope, operations, event, action);
  }
}
