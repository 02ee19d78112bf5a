/** The graphs of the analyzers read off a program edge by edge (smartbench/ir and
    smartbench/analysis/control_flow.py): the reference the verdict theorems are stated in. */
module Reading {
  import opened Sequences
  import opened Walks
  import opened Ir
  import opened ControlFlow

  /** One edge of the program, between operations of one scope in the chosen languages, none chosen meaning all. */
  predicate Joins(languages: set<string>, e: Edge, a: Op, b: Op) {
    && e.source == a.id && e.target == b.id && a.scope == b.scope
    && (languages == {} || (a.language in languages && b.language in languages))
  }

  /** Control passes from u to v along an edge of one of some kinds. */
  ghost predicate Step(ir: SemanticIR, languages: set<string>, along: EdgeKind -> bool, u: Id, v: Id) {
    exists e, a, b ::
      && e in ir.edges && a in ir.operations && b in ir.operations && Joins(languages, e, a, b)
      && along(e.kind) && a.id == u && b.id == v
  }

  predicate Flows(kind: EdgeKind) {
    kind in {EdgeKind.Next, EdgeKind.TrueBranch, EdgeKind.FalseBranch, EdgeKind.Body, EdgeKind.LoopBack,
             EdgeKind.LoopExit}
  }

  /** Not back to the head of a loop. */
  predicate Onward(kind: EdgeKind) {
    kind in {EdgeKind.Next, EdgeKind.TrueBranch, EdgeKind.FalseBranch, EdgeKind.Body, EdgeKind.LoopExit}
  }

  /** Not out of a loop. */
  predicate Inward(kind: EdgeKind) {
    kind in {EdgeKind.Next, EdgeKind.TrueBranch, EdgeKind.FalseBranch, EdgeKind.Body, EdgeKind.LoopBack}
  }

  /** A way through the program. */
  ghost predicate Way(ir: SemanticIR, languages: set<string>, along: EdgeKind -> bool, p: seq<Id>) {
    p != [] && forall i, j :: 0 <= i && j == i + 1 && j < |p| ==> Step(ir, languages, along, p[i], p[j])
  }

  /** A way of at least one step. */
  ghost predicate Leads(ir: SemanticIR, languages: set<string>, along: EdgeKind -> bool, u: Id, v: Id) {
    exists p :: Way(ir, languages, along, p) && |p| > 1 && p[0] == u && p[|p| - 1] == v
  }

  // ---------- the order of arcs ----------

  /** The text of a control-flow kind. */
  function TextOf(kind: EdgeKind): string
    requires Flows(kind)
  {
    match kind
    case Next => "next"
    case TrueBranch => "true_branch"
    case FalseBranch => "false_branch"
    case Body => "body"
    case LoopBack => "loop_back"
    case LoopExit => "loop_exit"
  }

  /** a comes before b in a dictionary: where they part it has the smaller character. */
  ghost predicate Alphabetical(a: string, b: string) {
    exists k :: 0 <= k < |a| && k < |b| && a[..k] == b[..k] && a[k] < b[k]
  }

  lemma PartAt(a: string, b: string, k: nat)
    requires k < |a| && k < |b| && a[..k] == b[..k] && a[k] < b[k]
    ensures Alphabetical(a, b)
  {}

  lemma TextsPart(k: EdgeKind, l: EdgeKind)
    requires Flows(k) && Flows(l) && KindRank(k) < KindRank(l)
    ensures Alphabetical(TextOf(k), TextOf(l))
  {
    if k.LoopBack? && l.LoopExit? {
      assert "loop_back"[..5] == "loop_" && "loop_exit"[..5] == "loop_";
      PartAt(TextOf(k), TextOf(l), 5);
    } else {
      PartAt(TextOf(k), TextOf(l), 0);
    }
  }

  lemma NotBoth(a: string, b: string)
    requires Alphabetical(a, b)
    ensures !Alphabetical(b, a)
  {
    var k :| 0 <= k < |a| && k < |b| && a[..k] == b[..k] && a[k] < b[k];
    forall l | 0 <= l < |a| && l < |b| && b[..l] == a[..l] ensures b[l] >= a[l] {
      if k < l { SameAt(a, b, l, k); }
      if l < k { SameAt(a, b, k, l); }
    }
  }

  lemma SameAt(a: string, b: string, n: nat, k: nat)
    requires k < n <= |a| && n <= |b| && a[..n] == b[..n]
    ensures a[k] == b[k]
  {
    assert a[..n][k] == a[k] && b[..n][k] == b[k];
  }

  /** The arcs of an operation stand in the order of the text of their kind, then of their targets. */
  lemma ArcsAreAlphabetical(a: Arc, b: Arc)
    requires Flows(a.kind) && Flows(b.kind) && a.source == b.source
    ensures ArcLeq(a, b) <==>
            Alphabetical(TextOf(a.kind), TextOf(b.kind)) || (a.kind == b.kind && a.target <= b.target)
  {
    if KindRank(a.kind) < KindRank(b.kind) {
      TextsPart(a.kind, b.kind);
    } else if KindRank(b.kind) < KindRank(a.kind) {
      TextsPart(b.kind, a.kind);
      NotBoth(TextOf(b.kind), TextOf(a.kind));
    } else {
      SameText(TextOf(a.kind));
    }
  }

  lemma SameText(a: string)
    ensures !Alphabetical(a, a)
  {}

  // ---------- arcs ----------

  lemma KeptOperation(ir: SemanticIR, languages: set<string>, op: Op)
    requires UniqueIds(ir.operations) && op in ir.operations && (languages == {} || op.language in languages)
    ensures op.id in GraphOfIr(ir, languages).ops && GraphOfIr(ir, languages).ops[op.id] == op
  {
    FilterKeepsUnique((x: Op) => Kept(x, languages), ir.operations);
    UniqueLookup(KeptOps(ir.operations, languages), op);
  }

  lemma GraphOperation(ir: SemanticIR, languages: set<string>, id: Id)
    requires id in GraphOfIr(ir, languages).ops
    ensures var op := GraphOfIr(ir, languages).ops[id];
            op in ir.operations && op.id == id && (languages == {} || op.language in languages)
  {}

  lemma StepHasArc(ir: SemanticIR, languages: set<string>, e: Edge, a: Op, b: Op)
    requires UniqueIds(ir.operations) && e in ir.edges && a in ir.operations && b in ir.operations
    requires Joins(languages, e, a, b) && Flows(e.kind)
    ensures Arc(a.id, b.id, e.kind) in GraphOfIr(ir, languages).arcs
  {
    var g, kept := GraphOfIr(ir, languages), KeptOps(ir.operations, languages);
    KeptOperation(ir, languages, a);
    KeptOperation(ir, languages, b);
    assert a in kept && b in kept;
    assert e in EdgesAmong(kept, ir.edges) && Admitted(g.ops, e);
    assert ArcOf(e) in g.arcs;
  }

  lemma ArcHasStep(ir: SemanticIR, languages: set<string>, arc: Arc) returns (e: Edge, a: Op, b: Op)
    requires arc in GraphOfIr(ir, languages).arcs
    ensures e in ir.edges && a in ir.operations && b in ir.operations && Joins(languages, e, a, b) && Flows(e.kind)
    ensures arc == Arc(a.id, b.id, e.kind)
  {
    var g, kept := GraphOfIr(ir, languages), KeptOps(ir.operations, languages);
    e :| e in EdgesAmong(kept, ir.edges) && Admitted(g.ops, e) && ArcOf(e) == arc;
    a, b := g.ops[e.source], g.ops[e.target];
    GraphOperation(ir, languages, e.source);
    GraphOperation(ir, languages, e.target);
  }

  /** The arcs of some kinds are the steps along them. */
  lemma StepsAreArcs(ir: SemanticIR, languages: set<string>, along: EdgeKind -> bool, u: Id, v: Id)
    requires UniqueIds(ir.operations) && forall k :: along(k) ==> Flows(k)
    ensures Step(ir, languages, along, u, v) <==>
            exists arc :: arc in GraphOfIr(ir, languages).arcs && along(arc.kind) && (arc.source, arc.target) == (u, v)
  {
    if Step(ir, languages, along, u, v) {
      var e, a, b :| e in ir.edges && a in ir.operations && b in ir.operations && Joins(languages, e, a, b) &&
                     along(e.kind) && a.id == u && b.id == v;
      StepHasArc(ir, languages, e, a, b);
    }
    if arc :| arc in GraphOfIr(ir, languages).arcs && along(arc.kind) && (arc.source, arc.target) == (u, v) {
      var e, a, b := ArcHasStep(ir, languages, arc);
    }
  }

  /** r has exactly the steps along some kinds. */
  ghost predicate Traces(ir: SemanticIR, languages: set<string>, along: EdgeKind -> bool, r: Relation) {
    forall u: Id, v: Id :: (u, v) in r <==> Step(ir, languages, along, u, v)
  }

  /** Reachability, loop-free reachability and loop bodies follow the edges of the program. */
  lemma RelationsAreSteps(ir: SemanticIR, languages: set<string>)
    requires UniqueIds(ir.operations)
    ensures Traces(ir, languages, Flows, Rel(GraphOfIr(ir, languages)))
    ensures Traces(ir, languages, Onward, LoopFreeRel(GraphOfIr(ir, languages)))
  {
    var g := GraphOfIr(ir, languages);
    forall u: Id, v: Id ensures (u, v) in Rel(g) <==> Step(ir, languages, Flows, u, v) {
      StepsAreArcs(ir, languages, Flows, u, v);
      FlowingArc(ir, languages, g, u, v);
    }
    forall u: Id, v: Id ensures (u, v) in LoopFreeRel(g) <==> Step(ir, languages, Onward, u, v) {
      StepsAreArcs(ir, languages, Onward, u, v);
      OnwardArc(ir, languages, g, u, v);
    }
  }

  lemma ArcFlows(ir: SemanticIR, languages: set<string>, arc: Arc)
    requires arc in GraphOfIr(ir, languages).arcs
    ensures Flows(arc.kind)
  {
    var e, a, b := ArcHasStep(ir, languages, arc);
  }

  lemma FlowingArc(ir: SemanticIR, languages: set<string>, g: Graph, u: Id, v: Id)
    requires g == GraphOfIr(ir, languages)
    ensures (u, v) in Rel(g) <==>
            exists arc :: arc in g.arcs && Flows(arc.kind) && (arc.source, arc.target) == (u, v)
  {
    if (u, v) in Rel(g) {
      var arc :| arc in g.arcs && (arc.source, arc.target) == (u, v);
      ArcFlows(ir, languages, arc);
    }
  }

  lemma OnwardArc(ir: SemanticIR, languages: set<string>, g: Graph, u: Id, v: Id)
    requires g == GraphOfIr(ir, languages)
    ensures (u, v) in LoopFreeRel(g) <==>
            exists arc :: arc in g.arcs && Onward(arc.kind) && (arc.source, arc.target) == (u, v)
  {
    if (u, v) in LoopFreeRel(g) {
      var arc :| arc in g.arcs && !arc.kind.LoopBack? && (arc.source, arc.target) == (u, v);
      ArcFlows(ir, languages, arc);
    }
    if arc :| arc in g.arcs && Onward(arc.kind) && (arc.source, arc.target) == (u, v) {
      assert !arc.kind.LoopBack?;
    }
  }

  /** Walks are ways. */
  lemma WalksAreWays(ir: SemanticIR, languages: set<string>, along: EdgeKind -> bool, r: Relation, p: seq<Id>)
    requires Traces(ir, languages, along, r)
    ensures IsWalk(r, p) <==> Way(ir, languages, along, p)
  {}

  lemma ReachIsLeads(ir: SemanticIR, languages: set<string>, along: EdgeKind -> bool, r: Relation, u: Id, v: Id)
    requires Traces(ir, languages, along, r)
    ensures Reach(r, u, v) <==> Leads(ir, languages, along, u, v)
  {
    if Reach(r, u, v) {
      var p :| WalkFromTo(r, p, u, v) && |p| > 1;
      WalksAreWays(ir, languages, along, r, p);
    }
    if Leads(ir, languages, along, u, v) {
      var p :| Way(ir, languages, along, p) && |p| > 1 && p[0] == u && p[|p| - 1] == v;
      WalksAreWays(ir, languages, along, r, p);
      assert WalkFromTo(r, p, u, v);
    }
  }

  // ---------- what the queries answer about a program ----------

  /** Every way from u to v passes d. */
  ghost predicate Passes(ir: SemanticIR, languages: set<string>, u: Id, d: Id, v: Id) {
    forall p :: Way(ir, languages, Flows, p) && |p| > 1 && p[0] == u && p[|p| - 1] == v ==> d in p
  }

  lemma VisitsIsPasses(ir: SemanticIR, languages: set<string>, u: Id, d: Id, v: Id)
    requires UniqueIds(ir.operations)
    ensures EveryWalkVisits(GraphOfIr(ir, languages), u, d, v) <==> Passes(ir, languages, u, d, v)
  {
    var r := Rel(GraphOfIr(ir, languages));
    RelationsAreSteps(ir, languages);
    forall p | |p| > 1 ensures WalkFromTo(r, p, u, v) <==>
                               Way(ir, languages, Flows, p) && p[0] == u && p[|p| - 1] == v {
      WalksAreWays(ir, languages, Flows, r, p);
    }
  }

  /** An outcome edge of a branch. */
  ghost predicate Outcome(ir: SemanticIR, languages: set<string>, branch: Id, kind: EdgeKind, next: Id) {
    Step(ir, languages, (k: EdgeKind) => k == kind, branch, next)
  }

  /** The outcome is followed onward to v, or is v. */
  ghost predicate OutcomeLeads(ir: SemanticIR, languages: set<string>, branch: Id, kind: EdgeKind, v: Id) {
    exists next: Id :: Outcome(ir, languages, branch, kind, next) &&
      (next == v || Leads(ir, languages, Onward, next, v))
  }

  lemma OutcomeIsArc(ir: SemanticIR, languages: set<string>, branch: Id, kind: EdgeKind, next: Id)
    requires UniqueIds(ir.operations) && Flows(kind)
    ensures Outcome(ir, languages, branch, kind, next) <==> Arc(branch, next, kind) in GraphOfIr(ir, languages).arcs
  {
    StepsAreArcs(ir, languages, (k: EdgeKind) => k == kind, branch, next);
    if Outcome(ir, languages, branch, kind, next) {
      var arc :| arc in GraphOfIr(ir, languages).arcs && arc.kind == kind && (arc.source, arc.target) == (branch, next);
      assert arc == Arc(branch, next, kind);
    }
  }

  lemma OutcomeReachesIsLeads(ir: SemanticIR, languages: set<string>, branch: Id, kind: EdgeKind, v: Id)
    requires UniqueIds(ir.operations) && Flows(kind)
    ensures OutcomeReaches(GraphOfIr(ir, languages), branch, kind, v) <==>
            OutcomeLeads(ir, languages, branch, kind, v)
  {
    var g := GraphOfIr(ir, languages);
    RelationsAreSteps(ir, languages);
    if OutcomeReaches(g, branch, kind, v) {
      var a :| a in g.arcs && a.source == branch && a.kind == kind && ReachStar(LoopFreeRel(g), a.target, v);
      assert a == Arc(branch, a.target, kind);
      OutcomeIsArc(ir, languages, branch, kind, a.target);
      ReachIsLeads(ir, languages, Onward, LoopFreeRel(g), a.target, v);
    }
    if OutcomeLeads(ir, languages, branch, kind, v) {
      var next: Id :| Outcome(ir, languages, branch, kind, next) &&
        (next == v || Leads(ir, languages, Onward, next, v));
      OutcomeIsArc(ir, languages, branch, kind, next);
      ReachIsLeads(ir, languages, Onward, LoopFreeRel(g), next, v);
      assert Arc(branch, next, kind).target == next;
    }
  }

  /** One outcome of the branch leads to v, and the other exists and does not. */
  ghost predicate Decides(
        ir: SemanticIR, languages: set<string>, branch: Id, taken: EdgeKind, other: EdgeKind, v: Id) {
    && OutcomeLeads(ir, languages, branch, taken, v) && !OutcomeLeads(ir, languages, branch, other, v)
    && exists next: Id :: Outcome(ir, languages, branch, other, next)
  }

  /** What branch_controls answers about a program. */
  lemma ControlIsDecision(ir: SemanticIR, languages: set<string>, branch: Id, v: Id)
    requires UniqueIds(ir.operations)
    ensures BranchControlsSpec(GraphOfIr(ir, languages), branch, v) <==>
            || Decides(ir, languages, branch, EdgeKind.TrueBranch, EdgeKind.FalseBranch, v)
            || Decides(ir, languages, branch, EdgeKind.FalseBranch, EdgeKind.TrueBranch, v)
  {
    OutcomeReachesIsLeads(ir, languages, branch, EdgeKind.TrueBranch, v);
    OutcomeReachesIsLeads(ir, languages, branch, EdgeKind.FalseBranch, v);
    HasOutcomeIsStep(ir, languages, branch, EdgeKind.TrueBranch);
    HasOutcomeIsStep(ir, languages, branch, EdgeKind.FalseBranch);
  }

  lemma HasOutcomeIsStep(ir: SemanticIR, languages: set<string>, branch: Id, kind: EdgeKind)
    requires UniqueIds(ir.operations) && Flows(kind)
    ensures HasOutcome(GraphOfIr(ir, languages), branch, kind) <==>
            exists next: Id :: Outcome(ir, languages, branch, kind, next)
  {
    var g := GraphOfIr(ir, languages);
    if HasOutcome(g, branch, kind) {
      var a :| a in g.arcs && a.source == branch && a.kind == kind;
      assert a == Arc(branch, a.target, kind);
      OutcomeIsArc(ir, languages, branch, kind, a.target);
    }
    if next: Id :| Outcome(ir, languages, branch, kind, next) {
      OutcomeIsArc(ir, languages, branch, kind, next);
    }
  }

  ghost predicate Reads(ir: SemanticIR, languages: set<string>, op: Op) {
    op in ir.operations && (languages == {} || op.language in languages)
  }

  /** No step leads to the operation. */
  ghost predicate Unentered(ir: SemanticIR, languages: set<string>, op: Op) {
    forall u: Id :: !Step(ir, languages, Flows, u, op.id)
  }

  /** Where a scope begins: at the operations no step leads to, or if there is none at its least operation. */
  ghost predicate Begins(ir: SemanticIR, languages: set<string>, op: Op) {
    && Reads(ir, languages, op)
    && if exists x :: Reads(ir, languages, x) && x.scope == op.scope && Unentered(ir, languages, x)
       then Unentered(ir, languages, op)
       else Least(ir, languages, op)
  }

  ghost predicate Least(ir: SemanticIR, languages: set<string>, op: Op) {
    forall x :: Reads(ir, languages, x) && x.scope == op.scope ==> op.id <= x.id
  }

  /** nodes are the operations of the scope. */
  ghost predicate ReadAs(ir: SemanticIR, languages: set<string>, g: Graph, scope: Id, nodes: set<Id>) {
    && (forall op :: Reads(ir, languages, op) && op.scope == scope ==> op.id in nodes)
    && forall id :: id in nodes ==>
         id in g.ops && Reads(ir, languages, g.ops[id]) && g.ops[id].scope == scope && g.ops[id].id == id
  }

  lemma ScopeIsRead(ir: SemanticIR, languages: set<string>, scope: Id)
    requires UniqueIds(ir.operations)
    ensures ReadAs(ir, languages, GraphOfIr(ir, languages), scope, ScopeNodes(GraphOfIr(ir, languages), scope))
  {
    forall op | Reads(ir, languages, op) && op.scope == scope
      ensures op.id in ScopeNodes(GraphOfIr(ir, languages), scope)
    {
      KeptOperation(ir, languages, op);
    }
  }

  /** The operations of the scope that no step leads to. */
  ghost predicate AreUnentered(ir: SemanticIR, languages: set<string>, scope: Id, sources: set<Id>) {
    && (forall op :: Reads(ir, languages, op) && op.scope == scope ==>
          (op.id in sources <==> Unentered(ir, languages, op)))
    && (sources == {} <==>
        !exists x :: Reads(ir, languages, x) && x.scope == scope && Unentered(ir, languages, x))
  }

  lemma SourcesAreUnentered(
        ir: SemanticIR, languages: set<string>, g: Graph, scope: Id, nodes: set<Id>, sources: set<Id>)
    requires g == GraphOfIr(ir, languages) && Traces(ir, languages, Flows, Rel(g))
    requires ReadAs(ir, languages, g, scope, nodes)
    requires sources == set n | n in nodes && forall m :: (m, n) !in Rel(g)
    ensures AreUnentered(ir, languages, scope, sources)
  {
    forall op | Reads(ir, languages, op) && op.scope == scope
      ensures op.id in sources <==> Unentered(ir, languages, op)
    {
      assert op.id in nodes;
    }
    if n :| n in sources { assert Reads(ir, languages, g.ops[n]) && Unentered(ir, languages, g.ops[n]); }
  }

  lemma LeastIsLeast(ir: SemanticIR, languages: set<string>, g: Graph, nodes: set<Id>, op: Op)
    requires op.id in nodes && Reads(ir, languages, op)
    requires ReadAs(ir, languages, g, op.scope, nodes)
    ensures op.id == MinOf(nodes) <==> Least(ir, languages, op)
  {
    var least := g.ops[MinOf(nodes)];
    assert Reads(ir, languages, least);
  }

  lemma EntriesBegin(ir: SemanticIR, languages: set<string>, op: Op)
    requires UniqueIds(ir.operations) && Reads(ir, languages, op)
    ensures op.id in Entries(GraphOfIr(ir, languages), op.scope) <==> Begins(ir, languages, op)
  {
    var g := GraphOfIr(ir, languages);
    RelationsAreSteps(ir, languages);
    ScopeIsRead(ir, languages, op.scope);
    EntryBegins(ir, languages, g, op, ScopeNodes(g, op.scope),
      set n | n in ScopeNodes(g, op.scope) && forall m :: (m, n) !in Rel(g));
  }

  lemma EntryBegins(ir: SemanticIR, languages: set<string>, g: Graph, op: Op, nodes: set<Id>, sources: set<Id>)
    requires g == GraphOfIr(ir, languages) && Traces(ir, languages, Flows, Rel(g)) && Reads(ir, languages, op)
    requires ReadAs(ir, languages, g, op.scope, nodes) && nodes == ScopeNodes(g, op.scope)
    requires sources == set n | n in nodes && forall m :: (m, n) !in Rel(g)
    ensures op.id in Entries(g, op.scope) <==> Begins(ir, languages, op)
  {
    SourcesAreUnentered(ir, languages, g, op.scope, nodes, sources);
    LeastIsLeast(ir, languages, g, nodes, op);
    EntriesAre(g, op.scope, nodes, sources);
    EitherBegins(ir, languages, op, sources, MinOf(nodes));
  }

  lemma EitherBegins(ir: SemanticIR, languages: set<string>, op: Op, sources: set<Id>, least: Id)
    requires Reads(ir, languages, op) && AreUnentered(ir, languages, op.scope, sources)
    requires op.id == least <==> Least(ir, languages, op)
    ensures (if sources != {} then op.id in sources else op.id == least) <==> Begins(ir, languages, op)
  {}

  lemma EntriesAre(g: Graph, scope: Id, nodes: set<Id>, sources: set<Id>)
    requires nodes == ScopeNodes(g, scope) && nodes != {}
    requires sources == set n | n in nodes && forall m :: (m, n) !in Rel(g)
    ensures Entries(g, scope) == if sources != {} then sources else {MinOf(nodes)}
  {}

  /** Every way from a beginning of v's scope to v passes d. */
  ghost predicate AlwaysBefore(ir: SemanticIR, languages: set<string>, d: Id, v: Op) {
    forall p, op :: Way(ir, languages, Flows, p) && Begins(ir, languages, op) && op.scope == v.scope ==>
      p[0] == op.id && p[|p| - 1] == v.id ==> d in p
  }

  /** What dominates answers about two operations of a program. */
  lemma DominanceIsAlwaysBefore(ir: SemanticIR, languages: set<string>, d: Op, v: Op)
    requires UniqueIds(ir.operations) && Reads(ir, languages, d) && Reads(ir, languages, v)
    ensures DominatesSpec(GraphOfIr(ir, languages), d.id, v.id) <==>
            d.scope == v.scope && AlwaysBefore(ir, languages, d.id, v)
  {
    var g := GraphOfIr(ir, languages);
    KeptOperation(ir, languages, d);
    KeptOperation(ir, languages, v);
    RelationsAreSteps(ir, languages);
    ScopeIsRead(ir, languages, v.scope);
    var entries := Entries(g, v.scope);
    if EntryDominates(g, entries, d.id, v.id) {
      forall p, op | Way(ir, languages, Flows, p) && Begins(ir, languages, op) && op.scope == v.scope &&
        p[0] == op.id && p[|p| - 1] == v.id
        ensures d.id in p
      {
        WalksAreWays(ir, languages, Flows, Rel(g), p);
        EntriesBegin(ir, languages, op);
      }
    }
    if AlwaysBefore(ir, languages, d.id, v) {
      forall p | IsWalk(Rel(g), p) && p[0] in entries && p[|p| - 1] == v.id ensures d.id in p {
        WalksAreWays(ir, languages, Flows, Rel(g), p);
        var op := g.ops[p[0]];
        assert Reads(ir, languages, op) && op.id == p[0] && op.scope == v.scope;
        EntriesBegin(ir, languages, op);
      }
    }
  }
}
