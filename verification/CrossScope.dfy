/** When a cross-scope guard really protects an action (_cross_scope_guard_proves_action,
    smartbench/analysis/state_machine.py): dominance inside the action's scope against runs of the whole program. */
module CrossScope {
  import opened Sequences
  import opened Walks
  import opened Ir
  import opened ControlFlow
  import opened IcfgRuns
  import opened IcfgSearch
  import opened Icfg
  import opened IcfgTheorems
  import opened StateMachine

  predicate InScopeOf(ops: map<Id, Op>, id: Id, scope: Id) {
    id in ops && ops[id].scope == scope
  }

  predicate IsEmbedded(ops: map<Id, Op>, c: Id) {
    HostOf(ops, false, c) != NO_ID
  }

  /** A call embedded in an operation of the scope. */
  predicate IsLocal(ops: map<Id, Op>, scope: Id, c: Id) {
    IsEmbedded(ops, c) && InScopeOf(ops, HostOf(ops, false, c), scope)
  }

  /** Where a walk of the scope stands for x: at its host in the scope, or at x. */
  function LocalAnchor(ops: map<Id, Op>, scope: Id, x: Id): Id {
    if IsLocal(ops, scope, x) then HostOf(ops, false, x) else x
  }

  /** Calls embedded in operations of the scope hang on their hosts: a host is not embedded there itself,
      control reaches such a call only from its host and flows on from it to the host or, where the call
      is a step of its own after the host, anywhere; the scope is not entered at one. */
  ghost predicate Tidy(ops: map<Id, Op>, edges: seq<Edge>, scope: Id) {
    && (forall c: Id :: IsLocal(ops, scope, c) && InScopeOf(ops, c, scope) ==>
       !IsLocal(ops, scope, HostOf(ops, false, c)))
    && (forall u: Id, v: Id :: RawEdge(ops, edges, u, v) && InScopeOf(ops, v, scope) ==>
          && (IsLocal(ops, scope, v) ==> u == HostOf(ops, false, v))
          && (IsLocal(ops, scope, u) ==> v == HostOf(ops, false, u) || RawEdge(ops, edges, HostOf(ops, false, u), u)))
    && (forall e: Id :: Entered(ops, edges, scope, e) ==> !IsLocal(ops, scope, e))
  }

  // ---------- walks of a scope ----------

  /** From u control starts a body at v: a call its target, a function its first operation. */
  ghost predicate Enters(ops: map<Id, Op>, edges: seq<Edge>, u: Id, v: Id) {
    CallTarget(ops, edges, false, u, v) || (u in ops && ops[u].kind.Function? && v == EntryOf(ops, edges, u))
  }

  /** A step that may change the scope: starting a body, reaching a call embedded elsewhere, or coming
      back to the host of a call made elsewhere. */
  ghost predicate Crosses(ops: map<Id, Op>, edges: seq<Edge>, u: Id, v: Id) {
    || Enters(ops, edges, u, v)
    || (u != NO_ID && HostOf(ops, false, v) == u)
    || ((exists f :: CallTarget(ops, edges, false, u, f)) && RawEdge(ops, edges, Anchor(ops, false, u), v))
  }

  /** The scope is entered here from outside. */
  ghost predicate OutsideEntry(ops: map<Id, Op>, edges: seq<Edge>, scope: Id, e: Id) {
    InScopeOf(ops, e, scope) && exists u: Id :: !InScopeOf(ops, u, scope) && Crosses(ops, edges, u, e)
  }

  /** The scope is entered here, from outside or by starting a body of its own. */
  ghost predicate Entered(ops: map<Id, Op>, edges: seq<Edge>, scope: Id, e: Id) {
    OutsideEntry(ops, edges, scope, e) || (InScopeOf(ops, e, scope) && exists u: Id :: Enters(ops, edges, u, e))
  }

  /** x, or a call embedded in x, enters y. */
  ghost predicate EntersFrom(ops: map<Id, Op>, edges: seq<Edge>, scope: Id, avoid: set<Id>, x: Id, y: Id) {
    exists u: Id :: u !in avoid && LocalAnchor(ops, scope, u) == x && Enters(ops, edges, u, y)
  }

  /** One step inside the scope that avoids some operations: control flow, or entering a body. */
  ghost predicate ScopeStep(ops: map<Id, Op>, edges: seq<Edge>, scope: Id, avoid: set<Id>, x: Id, y: Id) {
    InScopeOf(ops, y, scope) && (RawEdge(ops, edges, x, y) || EntersFrom(ops, edges, scope, avoid, x, y))
  }

  /** A walk inside the scope, from where it is entered from outside, that avoids some operations. */
  ghost predicate ScopeWalk(ops: map<Id, Op>, edges: seq<Edge>, scope: Id, avoid: set<Id>, p: seq<Id>) {
    && |p| > 0 && OutsideEntry(ops, edges, scope, p[0]) && (forall x :: x in p ==> x !in avoid)
    && forall i, j :: 0 <= i && j == i + 1 && j < |p| ==> ScopeStep(ops, edges, scope, avoid, p[i], p[j])
  }

  ghost predicate WalkTo(ops: map<Id, Op>, edges: seq<Edge>, scope: Id, avoid: set<Id>, p: seq<Id>, x: Id) {
    ScopeWalk(ops, edges, scope, avoid, p) && p[|p| - 1] == x
  }

  /** The guard lies on every walk inside the scope from where it is entered to the point. */
  ghost predicate GuardsEntries(ir: SemanticIR, scope: Id, guard: Id, point: Id) {
    forall p :: !WalkTo(OpsById(ir.operations), ir.edges, scope, {guard}, p, point)
  }

  // ---------- from walks of the program to walks of the scope ----------

  /** A walk of the scope to the anchor of x, over visited operations only. */
  ghost predicate EnteredBy(
        ops: map<Id, Op>, edges: seq<Edge>, scope: Id, avoid: set<Id>, p: seq<Id>, x: Id, visited: seq<Id>) {
    WalkTo(ops, edges, scope, avoid, p, LocalAnchor(ops, scope, x)) && forall y :: y in p ==> y in visited
  }

  lemma WalkOneMore(
        ops: map<Id, Op>, edges: seq<Edge>, scope: Id, avoid: set<Id>, p: seq<Id>, x: Id, y: Id, visited: seq<Id>)
    returns (q: seq<Id>)
    requires WalkTo(ops, edges, scope, avoid, p, x) && (forall z :: z in p ==> z in visited)
    requires ScopeStep(ops, edges, scope, avoid, x, y) && y !in avoid && y in visited
    ensures WalkTo(ops, edges, scope, avoid, q, y) && forall z :: z in q ==> z in visited
  {
    q := p + [y];
  }

  /** One step of a source walk that ends in the scope. */
  lemma StepInScope(
        ir: SemanticIR, ops: map<Id, Op>, scope: Id, avoid: set<Id>, u: Id, v: Id, open: bool, p: seq<Id>,
        visited: seq<Id>)
    returns (q: seq<Id>)
    requires ops == OpsById(ir.operations) && Tidy(ops, ir.edges, scope) && InScopeOf(ops, v, scope)
    requires if open then CallTarget(ops, ir.edges, false, u, v) else SourceStep(ir, false, u, v)
    requires u !in avoid && v !in avoid && u in visited && v in visited
    requires InScopeOf(ops, u, scope) ==> EnteredBy(ops, ir.edges, scope, avoid, p, u, visited)
    ensures EnteredBy(ops, ir.edges, scope, avoid, q, v, visited)
  {
    if !InScopeOf(ops, u, scope) {
      assert Crosses(ops, ir.edges, u, v) && OutsideEntry(ops, ir.edges, scope, v);
      assert Entered(ops, ir.edges, scope, v);
      q := [v];
    } else if Enters(ops, ir.edges, u, v) {
      q := EnterInScope(ops, ir.edges, scope, avoid, u, v, p, visited);
    } else if u != NO_ID && HostOf(ops, false, v) == u {
      q := p;
    } else if RawEdge(ops, ir.edges, u, v) {
      q := RawInScope(ops, ir.edges, scope, avoid, u, v, p, visited);
    } else {
      q := JumpInScope(ops, ir.edges, scope, avoid, u, v, p, visited);
    }
  }

  lemma EnterInScope(
        ops: map<Id, Op>, edges: seq<Edge>, scope: Id, avoid: set<Id>, u: Id, v: Id, p: seq<Id>, visited: seq<Id>)
    returns (q: seq<Id>)
    requires Tidy(ops, edges, scope) && InScopeOf(ops, v, scope) && Enters(ops, edges, u, v)
    requires u !in avoid && v !in avoid && v in visited && EnteredBy(ops, edges, scope, avoid, p, u, visited)
    ensures EnteredBy(ops, edges, scope, avoid, q, v, visited)
  {
    assert Entered(ops, edges, scope, v);
    assert EntersFrom(ops, edges, scope, avoid, LocalAnchor(ops, scope, u), v);
    q := WalkOneMore(ops, edges, scope, avoid, p, LocalAnchor(ops, scope, u), v, visited);
  }

  lemma RawInScope(
        ops: map<Id, Op>, edges: seq<Edge>, scope: Id, avoid: set<Id>, u: Id, v: Id, p: seq<Id>, visited: seq<Id>)
    returns (q: seq<Id>)
    requires Tidy(ops, edges, scope) && InScopeOf(ops, u, scope) && InScopeOf(ops, v, scope) &&
             RawEdge(ops, edges, u, v)
    requires u !in avoid && v !in avoid && u in visited && v in visited
    requires EnteredBy(ops, edges, scope, avoid, p, u, visited)
    ensures EnteredBy(ops, edges, scope, avoid, q, v, visited)
  {
    if IsLocal(ops, scope, v) {
      q := p;
    } else if !IsLocal(ops, scope, u) {
      q := WalkOneMore(ops, edges, scope, avoid, p, u, v, visited);
    } else if v == HostOf(ops, false, u) {
      q := p;
    } else {
      q := WalkOneMore(ops, edges, scope, avoid, p, HostOf(ops, false, u), u, visited);
      q := WalkOneMore(ops, edges, scope, avoid, q, u, v, visited);
    }
  }

  lemma JumpInScope(
        ops: map<Id, Op>, edges: seq<Edge>, scope: Id, avoid: set<Id>, u: Id, v: Id, p: seq<Id>, visited: seq<Id>)
    returns (q: seq<Id>)
    requires Tidy(ops, edges, scope) && InScopeOf(ops, u, scope) && InScopeOf(ops, v, scope)
    requires RawEdge(ops, edges, Anchor(ops, false, u), v) && v !in avoid && v in visited
    requires EnteredBy(ops, edges, scope, avoid, p, u, visited)
    ensures EnteredBy(ops, edges, scope, avoid, q, v, visited)
  {
    assert Anchor(ops, false, u) == LocalAnchor(ops, scope, u);
    if IsLocal(ops, scope, v) {
      q := p;
    } else {
      q := WalkOneMore(ops, edges, scope, avoid, p, LocalAnchor(ops, scope, u), v, visited);
    }
  }

  /** Wherever a source walk from outside stands in the scope, a walk inside the scope leads there over
      operations the source walk has visited. */
  lemma {:induction false} SourceWalkEnters(
        ir: SemanticIR, ops: map<Id, Op>, scope: Id, avoid: set<Id>, w: seq<Id>, open: seq<bool>, n: nat)
    returns (p: seq<Id>)
    requires ops == OpsById(ir.operations) && Tidy(ops, ir.edges, scope) && SourceWalk(ir, false, w, open) && n < |w|
    requires !InScopeOf(ops, w[0], scope) && forall x :: x in w ==> x !in avoid
    ensures InScopeOf(ops, w[n], scope) ==> EnteredBy(ops, ir.edges, scope, avoid, p, w[n], w)
  {
    p := [];
    if n > 0 {
      p := SourceWalkEnters(ir, ops, scope, avoid, w, open, n - 1);
      if InScopeOf(ops, w[n], scope) {
        p := StepInScope(ir, ops, scope, avoid, w[n - 1], w[n], open[n - 1], p, w);
      }
    }
  }

  // ---------- and back ----------

  /** A source walk from outside the scope to x that avoids some operations. */
  ghost predicate OutsideWalk(ir: SemanticIR, scope: Id, avoid: set<Id>, w: seq<Id>, open: seq<bool>, x: Id) {
    && SourceWalk(ir, false, w, open) && !InScopeOf(OpsById(ir.operations), w[0], scope) && w[|w| - 1] == x
    && forall y :: y in w ==> y !in avoid
  }

  lemma SourceWalkSnoc(ir: SemanticIR, w: seq<Id>, open: seq<bool>, y: Id, opens: bool)
    requires SourceWalk(ir, false, w, open)
    requires if opens then CallTarget(OpsById(ir.operations), ir.edges, false, w[|w| - 1], y)
             else SourceStep(ir, false, w[|w| - 1], y)
    ensures SourceWalk(ir, false, w + [y], open + [opens])
  {
    var v, marks := w + [y], open + [opens];
    forall i, j | 0 <= i && j == i + 1 && j < |v|
      ensures if marks[i] then CallTarget(OpsById(ir.operations), ir.edges, false, v[i], v[j])
              else SourceStep(ir, false, v[i], v[j])
    {
      assert v[i] == w[i];
      if j < |w| { assert v[j] == w[j] && marks[i] == open[i]; }
    }
  }

  lemma SourceOneMore(
        ir: SemanticIR, scope: Id, avoid: set<Id>, w: seq<Id>, open: seq<bool>, x: Id, y: Id, opens: bool)
    requires OutsideWalk(ir, scope, avoid, w, open, x) && y !in avoid
    requires if opens then CallTarget(OpsById(ir.operations), ir.edges, false, x, y) else SourceStep(ir, false, x, y)
    ensures OutsideWalk(ir, scope, avoid, w + [y], open + [opens], y)
  {
    SourceWalkSnoc(ir, w, open, y, opens);
  }

  /** Entering a body is a step of a source walk. */
  lemma SourceEnters(ir: SemanticIR, scope: Id, avoid: set<Id>, w: seq<Id>, open: seq<bool>, x: Id, y: Id)
    returns (w': seq<Id>, open': seq<bool>)
    requires OutsideWalk(ir, scope, avoid, w, open, x) && y !in avoid
    requires Enters(OpsById(ir.operations), ir.edges, x, y)
    ensures OutsideWalk(ir, scope, avoid, w', open', y)
  {
    var opens := CallTarget(OpsById(ir.operations), ir.edges, false, x, y);
    SourceOneMore(ir, scope, avoid, w, open, x, y, opens);
    w', open' := w + [y], open + [opens];
  }

  /** So is any step that may change the scope. */
  lemma SourceCrosses(ir: SemanticIR, scope: Id, avoid: set<Id>, w: seq<Id>, open: seq<bool>, x: Id, y: Id)
    returns (w': seq<Id>, open': seq<bool>)
    requires OutsideWalk(ir, scope, avoid, w, open, x) && y !in avoid
    requires Crosses(OpsById(ir.operations), ir.edges, x, y)
    ensures OutsideWalk(ir, scope, avoid, w', open', y)
  {
    if Enters(OpsById(ir.operations), ir.edges, x, y) {
      w', open' := SourceEnters(ir, scope, avoid, w, open, x, y);
    } else {
      SourceOneMore(ir, scope, avoid, w, open, x, y, false);
      w', open' := w + [y], open + [false];
    }
  }

  /** A step inside the scope is one or two steps of a source walk. */
  lemma ScopeStepIsSource(ir: SemanticIR, scope: Id, avoid: set<Id>, w: seq<Id>, open: seq<bool>, x: Id, y: Id)
    returns (w': seq<Id>, open': seq<bool>)
    requires OutsideWalk(ir, scope, avoid, w, open, x) && y !in avoid
    requires ScopeStep(OpsById(ir.operations), ir.edges, scope, avoid, x, y)
    ensures OutsideWalk(ir, scope, avoid, w', open', y)
  {
    var ops := OpsById(ir.operations);
    if RawEdge(ops, ir.edges, x, y) {
      SourceOneMore(ir, scope, avoid, w, open, x, y, false);
      w', open' := w + [y], open + [false];
    } else {
      var u: Id :| u !in avoid && LocalAnchor(ops, scope, u) == x && Enters(ops, ir.edges, u, y);
      w', open' := w, open;
      if u != x {
        SourceOneMore(ir, scope, avoid, w, open, x, u, false);
        w', open' := w + [u], open + [false];
      }
      w', open' := SourceEnters(ir, scope, avoid, w', open', u, y);
    }
  }

  lemma {:induction false} ScopeWalkIsSource(ir: SemanticIR, scope: Id, avoid: set<Id>, p: seq<Id>, n: nat)
    returns (w: seq<Id>, open: seq<bool>)
    requires ScopeWalk(OpsById(ir.operations), ir.edges, scope, avoid, p) && n < |p|
    requires forall x :: x in avoid ==> InScopeOf(OpsById(ir.operations), x, scope)
    ensures OutsideWalk(ir, scope, avoid, w, open, p[n])
  {
    if n == 0 {
      var u: Id :| !InScopeOf(OpsById(ir.operations), u, scope) && Crosses(OpsById(ir.operations), ir.edges, u, p[0]);
      assert OutsideWalk(ir, scope, avoid, [u], [], u);
      w, open := SourceCrosses(ir, scope, avoid, [u], [], u, p[0]);
    } else {
      w, open := ScopeWalkIsSource(ir, scope, avoid, p, n - 1);
      w, open := ScopeStepIsSource(ir, scope, avoid, w, open, p[n - 1], p[n]);
    }
  }

  // ---------- when a guard guards ----------

  /** Every walk through the program from outside the scope to the action visits the guard. */
  ghost predicate GuardsWalks(ir: SemanticIR, scope: Id, guard: Id, action: Id) {
    forall w, open :: !OutsideWalk(ir, scope, {guard}, w, open, action)
  }

  /** Exactly: the guard is on every walk of the program from outside its scope to an action of the
      scope if and only if it is on every walk inside the scope, from the operations where it is
      entered from outside to the anchor of the action. */
  lemma GuardsWalksIff(ir: SemanticIR, scope: Id, guard: Id, action: Id)
    requires Tidy(OpsById(ir.operations), ir.edges, scope) && guard != action
    requires InScopeOf(OpsById(ir.operations), guard, scope) && InScopeOf(OpsById(ir.operations), action, scope)
    ensures GuardsWalks(ir, scope, guard, action) <==>
            GuardsEntries(ir, scope, guard, LocalAnchor(OpsById(ir.operations), scope, action))
  {
    var point := LocalAnchor(OpsById(ir.operations), scope, action);
    if w, open :| OutsideWalk(ir, scope, {guard}, w, open, action) {
      var p := OutsideWalkEnters(ir, scope, {guard}, w, open, action);
    }
    if p :| WalkTo(OpsById(ir.operations), ir.edges, scope, {guard}, p, point) {
      var w, open := WalkLeavesOutside(ir, scope, guard, p, action);
    }
  }

  lemma OutsideWalkEnters(ir: SemanticIR, scope: Id, avoid: set<Id>, w: seq<Id>, open: seq<bool>, action: Id)
    returns (p: seq<Id>)
    requires Tidy(OpsById(ir.operations), ir.edges, scope) && InScopeOf(OpsById(ir.operations), action, scope)
    requires OutsideWalk(ir, scope, avoid, w, open, action)
    ensures WalkTo(OpsById(ir.operations), ir.edges, scope, avoid, p,
            LocalAnchor(OpsById(ir.operations), scope, action))
    ensures forall y :: y in p ==> y in w
  {
    p := SourceWalkEnters(ir, OpsById(ir.operations), scope, avoid, w, open, |w| - 1);
  }

  lemma WalkLeavesOutside(ir: SemanticIR, scope: Id, guard: Id, p: seq<Id>, action: Id)
    returns (w: seq<Id>, open: seq<bool>)
    requires guard != action && InScopeOf(OpsById(ir.operations), guard, scope)
    requires WalkTo(OpsById(ir.operations), ir.edges, scope, {guard}, p,
             LocalAnchor(OpsById(ir.operations), scope, action))
    ensures OutsideWalk(ir, scope, {guard}, w, open, action)
  {
    w, open := ScopeWalkIsSource(ir, scope, {guard}, p, |p| - 1);
    if p[|p| - 1] != action {
      SourceOneMore(ir, scope, {guard}, w, open, p[|p| - 1], action, false);
      w, open := w + [action], open + [false];
    }
  }

  /** Then every run of the program from an event outside the scope visits it. */
  lemma EveryRunIsGuarded(
        ir: SemanticIR, view: View, scope: Id, depth: nat, event: Id, action: Id, guard: Id, cs: seq<Config>,
        arcs: seq<Jump>)
    requires BuiltFrom(view, ir, false) && Tidy(OpsById(ir.operations), ir.edges, scope)
    requires !InScopeOf(OpsById(ir.operations), event, scope) && InScopeOf(OpsById(ir.operations), action, scope)
    requires GuardsEntries(ir, scope, guard, LocalAnchor(OpsById(ir.operations), scope, action))
    requires RunTo(view, depth, event, action, cs, arcs)
    ensures guard in OpsOf(cs)
  {
    var w, open := RunsEraseToSourceWalks(view, ir, false, depth, event, cs, arcs);
    if guard !in w {
      var p := OutsideWalkEnters(ir, scope, {guard}, w, open, action);
    }
  }

  // ---------- the outcome taken ----------

  /** The one outcome of a controlling branch from which the point is reached without LOOP_BACK arcs. */
  ghost function ControllingOutcome(g: Graph, guard: Id, point: Id): EdgeKind {
    if OutcomeReaches(g, guard, TrueBranch, point) then TrueBranch else FalseBranch
  }

  /** No outcome arc from the guard to x but one of the controlling outcome. */
  ghost predicate TakesControlling(g: Graph, guard: Id, x: Id, point: Id) {
    forall a :: a in g.arcs && a.source == guard && a.target == x && (a.kind.TrueBranch? || a.kind.FalseBranch?) ==>
      a.kind == ControllingOutcome(g, guard, point)
  }

  /** From the last visit to the guard at i the walk goes on by the controlling outcome, unless it comes to
      the point only by a LOOP_BACK arc or by entering a body again. */
  ghost predicate LeavesByOutcome(g: Graph, guard: Id, point: Id, p: seq<Id>, i: nat) {
    && i < |p| && p[i] == guard && guard !in p[i + 1..]
    && (i + 1 < |p| && IsWalk(LoopFreeRel(g), p[i + 1..]) ==> TakesControlling(g, guard, p[i + 1], point))
  }

  lemma {:induction false} LastVisit(p: seq<Id>, x: Id) returns (i: nat)
    requires x in p
    ensures i < |p| && p[i] == x && x !in p[i + 1..]
    decreases |p|
  {
    var n := |p| - 1;
    if p[n] == x {
      i := n;
    } else {
      assert p == p[..n] + [p[n]];
      i := LastVisit(p[..n], x);
      assert p[i + 1..] == p[..n][i + 1..] + [p[n]];
    }
  }

  lemma OutcomeOfWalk(g: Graph, guard: Id, point: Id, p: seq<Id>) returns (i: nat)
    requires guard in p && p[|p| - 1] == point && BranchControlsSpec(g, guard, point)
    ensures LeavesByOutcome(g, guard, point, p, i)
  {
    i := LastVisit(p, guard);
    if i + 1 < |p| && IsWalk(LoopFreeRel(g), p[i + 1..]) {
      var rest := p[i + 1..];
      assert WalkFromTo(LoopFreeRel(g), rest, p[i + 1], point);
      assert ReachStar(LoopFreeRel(g), p[i + 1], point);
    }
  }

  /** Every run to the action passes a controlling guard of its entries, and after the last visit takes
      the controlling outcome: the run visits a walk inside the scope to the action's anchor that does. */
  lemma EveryRunTakesTheOutcome(
        ir: SemanticIR, view: View, g: Graph, scope: Id, depth: nat, event: Id, action: Id, guard: Id,
        cs: seq<Config>, arcs: seq<Jump>)
    returns (p: seq<Id>, i: nat)
    requires BuiltFrom(view, ir, false) && Tidy(OpsById(ir.operations), ir.edges, scope)
    requires !InScopeOf(OpsById(ir.operations), event, scope) && InScopeOf(OpsById(ir.operations), action, scope)
    requires GuardsEntries(ir, scope, guard, LocalAnchor(OpsById(ir.operations), scope, action))
    requires BranchControlsSpec(g, guard, LocalAnchor(OpsById(ir.operations), scope, action))
    requires !IsLocal(OpsById(ir.operations), scope, guard)
    requires RunTo(view, depth, event, action, cs, arcs)
    ensures WalkTo(OpsById(ir.operations), ir.edges, scope, {}, p, LocalAnchor(OpsById(ir.operations), scope, action))
    ensures forall x :: x in p ==> x in OpsOf(cs)
    ensures LeavesByOutcome(g, guard, LocalAnchor(OpsById(ir.operations), scope, action), p, i)
  {
    var ops := OpsById(ir.operations);
    var point := LocalAnchor(ops, scope, action);
    var w, open := RunsEraseToSourceWalks(view, ir, false, depth, event, cs, arcs);
    p := OutsideWalkEnters(ir, scope, {}, w, open, action);
    GuardIsOnWalk(ir, scope, guard, point, p);
    i := OutcomeOfWalk(g, guard, point, p);
  }

  /** A guard that is no embedded call itself stands on the walk where it guards the entries. */
  lemma GuardIsOnWalk(ir: SemanticIR, scope: Id, guard: Id, point: Id, p: seq<Id>)
    requires GuardsEntries(ir, scope, guard, point) && !IsLocal(OpsById(ir.operations), scope, guard)
    requires WalkTo(OpsById(ir.operations), ir.edges, scope, {}, p, point)
    ensures guard in p
  {
    if guard !in p {
      WalkAvoids(OpsById(ir.operations), ir.edges, scope, guard, p, point);
    }
  }

  lemma WalkAvoids(ops: map<Id, Op>, edges: seq<Edge>, scope: Id, guard: Id, p: seq<Id>, x: Id)
    requires WalkTo(ops, edges, scope, {}, p, x) && guard !in p && !IsLocal(ops, scope, guard)
    ensures WalkTo(ops, edges, scope, {guard}, p, x)
  {
    forall i, j | 0 <= i && j == i + 1 && j < |p| ensures ScopeStep(ops, edges, scope, {guard}, p[i], p[j]) {
      assert ScopeStep(ops, edges, scope, {}, p[i], p[j]);
      if !RawEdge(ops, edges, p[i], p[j]) {
        var u: Id :| u !in {} && LocalAnchor(ops, scope, u) == p[i] && Enters(ops, edges, u, p[j]);
        assert u != guard;
        assert EntersFrom(ops, edges, scope, {guard}, p[i], p[j]);
      }
    }
  }

  // ---------- dominance ----------

  /** An operation where the scope is entered, reached without the guard. */
  ghost predicate LiveEntry(ir: SemanticIR, scope: Id, guard: Id, e: Id) {
    var ops := OpsById(ir.operations);
    && Entered(ops, ir.edges, scope, e)
    && exists p :: WalkTo(ops, ir.edges, scope, {guard}, p, e)
  }

  /** A walk of the graph from one of the entries that dominance is computed from, without the guard. */
  ghost predicate UnguardedWalk(g: Graph, scope: Id, guard: Id, p: seq<Id>, x: Id) {
    IsWalk(Rel(g), p) && p[0] in Entries(g, scope) && p[|p| - 1] == x && guard !in p
  }

  ghost predicate Unguarded(g: Graph, scope: Id, guard: Id, x: Id) {
    exists p :: UnguardedWalk(g, scope, guard, p, x)
  }

  /** Dominance sees every operation where the scope is entered without the guard. */
  ghost predicate EntriesSeen(ir: SemanticIR, g: Graph, scope: Id, guard: Id) {
    forall e :: LiveEntry(ir, scope, guard, e) ==> Unguarded(g, scope, guard, e)
  }

  /** The graph keeps all of the scope. */
  ghost predicate KeepsScope(ops: map<Id, Op>, edges: seq<Edge>, g: Graph, scope: Id) {
    forall u: Id, v: Id :: RawEdge(ops, edges, u, v) && InScopeOf(ops, v, scope) ==> (u, v) in Rel(g)
  }

  lemma RawIsSeen(
        ops: map<Id, Op>, edges: seq<Edge>, g: Graph, scope: Id, guard: Id, p: seq<Id>, n: nat, q: seq<Id>)
    requires ScopeWalk(ops, edges, scope, {guard}, p) && KeepsScope(ops, edges, g, scope)
    requires 0 < n < |p| && RawEdge(ops, edges, p[n - 1], p[n]) && UnguardedWalk(g, scope, guard, q, p[n - 1])
    ensures UnguardedWalk(g, scope, guard, q + [p[n]], p[n])
  {
    assert ScopeStep(ops, edges, scope, {guard}, p[n - 1], p[n]) && p[n] in p;
  }

  /** The walk does not come to its place n by control flow. */
  ghost predicate EntersAt(ops: map<Id, Op>, edges: seq<Edge>, p: seq<Id>, n: nat)
    requires n < |p|
  {
    n == 0 || !RawEdge(ops, edges, p[n - 1], p[n])
  }

  /** Each entry on the walk is seen, and control flow leads on from there. */
  lemma {:induction false} ScopeWalkIsSeen(
        ops: map<Id, Op>, edges: seq<Edge>, g: Graph, scope: Id, guard: Id, p: seq<Id>, n: nat)
    returns (q: seq<Id>)
    requires ScopeWalk(ops, edges, scope, {guard}, p) && n < |p| && KeepsScope(ops, edges, g, scope)
    requires forall m: nat :: m < |p| && EntersAt(ops, edges, p, m) ==> Unguarded(g, scope, guard, p[m])
    ensures UnguardedWalk(g, scope, guard, q, p[n])
  {
    if n > 0 && RawEdge(ops, edges, p[n - 1], p[n]) {
      q := ScopeWalkIsSeen(ops, edges, g, scope, guard, p, n - 1);
      RawIsSeen(ops, edges, g, scope, guard, p, n, q);
      q := q + [p[n]];
    } else {
      assert EntersAt(ops, edges, p, n);
      q :| UnguardedWalk(g, scope, guard, q, p[n]);
    }
  }

  /** Where a walk inside the scope does not come by control flow it enters, so far without the guard. */
  lemma EntryOnWalk(ir: SemanticIR, scope: Id, guard: Id, p: seq<Id>, n: nat)
    requires ScopeWalk(OpsById(ir.operations), ir.edges, scope, {guard}, p) && n < |p|
    requires EntersAt(OpsById(ir.operations), ir.edges, p, n)
    ensures LiveEntry(ir, scope, guard, p[n])
  {
    var ops := OpsById(ir.operations);
    assert WalkTo(ops, ir.edges, scope, {guard}, p[..n + 1], p[n]);
    assert n > 0 ==> EntersFrom(ops, ir.edges, scope, {guard}, p[n - 1], p[n]);
  }

  lemma SeenWalk(ir: SemanticIR, g: Graph, scope: Id, guard: Id, p: seq<Id>) returns (q: seq<Id>)
    requires ScopeWalk(OpsById(ir.operations), ir.edges, scope, {guard}, p)
    requires KeepsScope(OpsById(ir.operations), ir.edges, g, scope) && EntriesSeen(ir, g, scope, guard)
    ensures UnguardedWalk(g, scope, guard, q, p[|p| - 1])
  {
    forall m: nat | m < |p| && EntersAt(OpsById(ir.operations), ir.edges, p, m)
      ensures Unguarded(g, scope, guard, p[m])
    {
      EntryOnWalk(ir, scope, guard, p, m);
    }
    q := ScopeWalkIsSeen(OpsById(ir.operations), ir.edges, g, scope, guard, p, |p| - 1);
  }

  /** Exactly when dominance by a guard is protection, whatever the action: if and only if the graph's
      entries reach, without the guard, every operation where the scope is entered without it. */
  lemma DominanceGuardsIff(ir: SemanticIR, g: Graph, scope: Id, guard: Id)
    requires KeepsScope(OpsById(ir.operations), ir.edges, g, scope)
    ensures (forall x :: EntryDominates(g, Entries(g, scope), guard, x) ==> GuardsEntries(ir, scope, guard, x))
            <==> EntriesSeen(ir, g, scope, guard)
  {
    var ops := OpsById(ir.operations);
    if EntriesSeen(ir, g, scope, guard) {
      forall x, p | WalkTo(ops, ir.edges, scope, {guard}, p, x)
        ensures !EntryDominates(g, Entries(g, scope), guard, x) {
        var q := SeenWalk(ir, g, scope, guard, p);
        assert guard !in q;
      }
    } else {
      var e :| LiveEntry(ir, scope, guard, e) && !Unguarded(g, scope, guard, e);
      assert !GuardsEntries(ir, scope, guard, e);
      forall p | IsWalk(Rel(g), p) && p[0] in Entries(g, scope) && p[|p| - 1] == e ensures guard in p {
        assert !UnguardedWalk(g, scope, guard, p, e);
      }
    }
  }

  /** An operation that is an entry of the graph, or that one leads to, as the edge from an embedded
      call to its host does. */
  ghost predicate NearEntry(g: Graph, scope: Id, guard: Id, e: Id) {
    e in Entries(g, scope) || exists c :: c in Entries(g, scope) && c != guard && (c, e) in Rel(g)
  }

  /** So it suffices that bodies begin with such operations. */
  lemma NearEntriesAreSeen(ir: SemanticIR, g: Graph, scope: Id, guard: Id)
    requires forall e: Id :: Entered(OpsById(ir.operations), ir.edges, scope, e) ==> NearEntry(g, scope, guard, e)
    ensures EntriesSeen(ir, g, scope, guard)
  {
    var ops := OpsById(ir.operations);
    forall e | LiveEntry(ir, scope, guard, e) ensures Unguarded(g, scope, guard, e) {
      var p :| WalkTo(ops, ir.edges, scope, {guard}, p, e);
      assert e != guard;
      if e in Entries(g, scope) {
        assert UnguardedWalk(g, scope, guard, [e], e);
      } else {
        var c :| c in Entries(g, scope) && c != guard && (c, e) in Rel(g);
        assert UnguardedWalk(g, scope, guard, [c, e], e);
      }
    }
  }

  /** The operations the analyzer looks at are those of its graph. */
  lemma AnalyzedInGraph(ir: SemanticIR, languages: set<string>, op: Op)
    requires UniqueIds(ir.operations) && op in Analyzed(ir, languages)
    ensures op in ir.operations && op.id in GraphOfIr(ir, languages).ops && GraphOfIr(ir, languages).ops[op.id] == op
  {
    FilterKeepsUnique((o: Op) => Kept(o, languages), ir.operations);
    UniqueLookup(KeptOps(ir.operations, languages), op);
  }

  /** A pair the analyzer calls proven, with one of the guards that prove it.  Every walk of the program
      from outside the scope of the action visits that guard exactly when it guards the entries of the
      scope; then so does every run from the event, not only the one path that was searched; and this is
      so wherever dominance sees the entries. */
  lemma ProvenPairIsGuarded(
        ir: SemanticIR, languages: set<string>, g: Graph, view: Traversal, inv: Invariant, operations: seq<Op>,
        d: Decision, guard: Op)
    requires UniqueIds(ir.operations) && g == GraphOfIr(ir, languages) && BuiltFrom(view.graph, ir, false)
    requires operations == SortOps(Analyzed(ir, languages)) && d.event in operations && d.action in operations
    requires d.event.scope != d.action.scope && d.outcome.Proven? && Justified(g, view, inv, operations, d)
    requires guard in operations && InnerGuard(inv, d.outcome.path, d.event, guard, d.action)
    requires CrossScopeProves(g, guard, d.action) && Tidy(OpsById(ir.operations), ir.edges, d.action.scope)
    ensures var point := LocalAnchor(OpsById(ir.operations), d.action.scope, d.action.id);
            && (GuardsWalks(ir, d.action.scope, guard.id, d.action.id) <==>
                GuardsEntries(ir, d.action.scope, guard.id, point))
            && (GuardsEntries(ir, d.action.scope, guard.id, point) ==>
                  forall depth: nat, cs, arcs ::
                    RunTo(view.graph, depth, d.event.id, d.action.id, cs, arcs) ==> guard.id in OpsOf(cs))
            && (KeepsScope(OpsById(ir.operations), ir.edges, g, d.action.scope) && point == ActionPoint(d.action) &&
                EntriesSeen(ir, g, d.action.scope, guard.id) ==>
                  GuardsEntries(ir, d.action.scope, guard.id, point))
  {
    AnalyzedInGraph(ir, languages, guard);
    AnalyzedInGraph(ir, languages, d.event);
    AnalyzedInGraph(ir, languages, d.action);
    UniqueLookup(ir.operations, guard);
    UniqueLookup(ir.operations, d.event);
    UniqueLookup(ir.operations, d.action);
    var point := LocalAnchor(OpsById(ir.operations), d.action.scope, d.action.id);
    GuardsWalksIff(ir, d.action.scope, guard.id, d.action.id);
    if GuardsEntries(ir, d.action.scope, guard.id, point) {
      forall depth: nat, cs: seq<Config>, arcs: seq<Jump> | RunTo(view.graph, depth, d.event.id, d.action.id, cs, arcs)
        ensures guard.id in OpsOf(cs)
      {
        EveryRunIsGuarded(ir, view.graph, d.action.scope, depth, d.event.id, d.action.id, guard.id, cs, arcs);
      }
    }
    if KeepsScope(OpsById(ir.operations), ir.edges, g, d.action.scope) && point == ActionPoint(d.action) &&
      EntriesSeen(ir, g, d.action.scope, guard.id)
    {
      DominanceGuardsIff(ir, g, d.action.scope, guard.id);
      assert EntryDominates(g, Entries(g, d.action.scope), guard.id, point);
    }
  }

  /** A graph that drops no operation of the scope by language keeps all of it. */
  lemma KeptScopeIsKept(ir: SemanticIR, languages: set<string>, scope: Id)
    requires UniqueIds(ir.operations) && forall op :: op in ir.operations && op.scope == scope ==> Kept(op, languages)
    ensures KeepsScope(OpsById(ir.operations), ir.edges, GraphOfIr(ir, languages), scope)
  {
    var ops, kept, g := OpsById(ir.operations), KeptOps(ir.operations, languages), GraphOfIr(ir, languages);
    FilterKeepsUnique((o: Op) => Kept(o, languages), ir.operations);
    forall u: Id, v: Id | RawEdge(ops, ir.edges, u, v) && InScopeOf(ops, v, scope) ensures (u, v) in Rel(g) {
      var e :| e in ir.edges && Admitted(ops, e) && e.source == u && e.target == v;
      UniqueLookup(kept, ops[u]);
      UniqueLookup(kept, ops[v]);
      KeptEdgeIsArc(kept, ir.edges, e);
    }
  }

  lemma KeptEdgeIsArc(kept: seq<Op>, edges: seq<Edge>, e: Edge)
    requires e in edges && Admitted(OpsById(kept), e)
    ensures (e.source, e.target) in Rel(GraphOf(kept, EdgesAmong(kept, edges)))
  {
    var ops := OpsById(kept);
    assert ops[e.source] in kept && ops[e.target] in kept;
    assert e in EdgesAmong(kept, edges);
    assert ArcOf(e) in GraphOf(kept, EdgesAmong(kept, edges)).arcs;
  }
}
