/** Retry violations in terms of the program alone: its operations, its ways, and what they read and assign. */
module RetryReport {
  import opened Sequences
  import opened Walks
  import opened Ir
  import opened ControlFlow
  import opened Reading
  import opened DepthFirst
  import opened RetryLoops
  import opened RetryReadings

  /** The program with the chosen languages, and one loop of it. */
  datatype Place = Place(ir: SemanticIR, languages: set<string>, loop: Op)

  /** Inside the loop: reached from its head without leaving it, or stepping right onto such an operation. */
  ghost predicate Owned(at: Place, n: Id) {
    || Leads(at.ir, at.languages, Inward, at.loop.id, n)
    || exists m: Id :: Leads(at.ir, at.languages, Inward, at.loop.id, m) && Step(at.ir, at.languages, Flows, n, m)
  }

  ghost predicate AssignedIn(t: RetryText, at: Place, x: string) {
    exists op ::
      && Reads(at.ir, at.languages, op) && op.scope == at.loop.scope && Owned(at, op.id)
      && (op.kind == Assign || op.kind == Update) && x in t.assignedBy(op)
  }

  /** The operation lets the retry pass: it does not bound it, pause it, or do other work. */
  ghost predicate LetsPass(t: RetryText, at: Place, errorVariable: string, op: Op) {
    var text := if op.target == "" then op.value else op.target;
    && (op.kind == Branch ==> !t.limitGuard(op.value))
    && (op.kind == Branch ==>
          forall x :: x in t.identifiers(op.value) && x != errorVariable ==> !AssignedIn(t, at, x))
    && (op.kind == Call || op.kind == Spawn ==> !t.mitigationCall(text))
    && (op.kind == Call || op.kind == Spawn || op.kind == Send || op.kind == Emit ==> t.passthrough(text))
  }

  /** Everything on p after its first operation is let pass. */
  ghost predicate AllPass(t: RetryText, at: Place, errorVariable: string, p: seq<Id>) {
    forall i, op :: 1 <= i < |p| && Reads(at.ir, at.languages, op) && op.id == p[i] ==>
      LetsPass(t, at, errorVariable, op)
  }

  /** A way from the error outcome of a branch back to the head, inside the loop, that everything after the
      first operation lets pass. */
  ghost predicate WayBack(t: RetryText, at: Place, errorVariable: string, branch: Id, outcome: EdgeKind, p: seq<Id>) {
    && Way(at.ir, at.languages, Onward, p) && Outcome(at.ir, at.languages, branch, outcome, p[0])
    && (forall i :: 0 <= i < |p| ==> Owned(at, p[i]))
    && AllPass(t, at, errorVariable, p)
    && Outcome(at.ir, at.languages, p[|p| - 1], EdgeKind.LoopBack, at.loop.id)
  }

  /** The branch checks an error result of the call, and its error outcome has a way back. */
  ghost predicate RetriesOn(t: RetryText, at: Place, call: Op, branch: Op) {
    var outcome := t.errorOutcome(branch, t.resultNames(call));
    && outcome.Some? && Flows(outcome.value.1)
    && exists p :: WayBack(t, at, outcome.value.0, branch.id, outcome.value.1, p)
  }

  ghost predicate SitsIn(at: Place, op: Op) {
    Reads(at.ir, at.languages, op) && op.scope == at.loop.scope && Owned(at, op.id)
  }

  /** An unbounded loop of a scope, a risky call in it with an error result, and a branch in it that retries. */
  ghost predicate RetriesBlindly(t: RetryText, at: Place, call: Op, branch: Op) {
    && Reads(at.ir, at.languages, at.loop) && at.loop.kind == Loop && at.loop.scope != NO_ID && t.unbounded(at.loop)
    && SitsIn(at, call) && call.kind == Call && t.risky(call) && t.resultNames(call) != []
    && SitsIn(at, branch) && branch.kind == Branch && RetriesOn(t, at, call, branch)
  }

  // ---------- the body ----------

  lemma BodyStepsAreInward(ir: SemanticIR, languages: set<string>)
    requires UniqueIds(ir.operations)
    ensures Traces(ir, languages, Inward, BodyRel(GraphOfIr(ir, languages)))
  {
    var g := GraphOfIr(ir, languages);
    forall u: Id, v: Id ensures (u, v) in BodyRel(g) <==> Step(ir, languages, Inward, u, v) {
      StepsAreArcs(ir, languages, Inward, u, v);
      InwardArc(ir, languages, g, u, v);
    }
  }

  lemma InwardArc(ir: SemanticIR, languages: set<string>, g: Graph, u: Id, v: Id)
    requires g == GraphOfIr(ir, languages)
    ensures (u, v) in BodyRel(g) <==>
            exists arc :: arc in g.arcs && Inward(arc.kind) && (arc.source, arc.target) == (u, v)
  {
    if (u, v) in BodyRel(g) {
      var arc :| arc in g.arcs && !arc.kind.LoopExit? && (arc.source, arc.target) == (u, v);
      ArcFlows(ir, languages, arc);
    }
    if arc :| arc in g.arcs && Inward(arc.kind) && (arc.source, arc.target) == (u, v) {
      assert !arc.kind.LoopExit?;
    }
  }

  lemma BodyIsOwned(at: Place, n: Id)
    requires UniqueIds(at.ir.operations)
    ensures InBody(GraphOfIr(at.ir, at.languages), at.loop.id, n) <==> Owned(at, n)
  {
    var g := GraphOfIr(at.ir, at.languages);
    BodyStepsAreInward(at.ir, at.languages);
    RelationsAreSteps(at.ir, at.languages);
    forall m: Id ensures InCore(g, at.loop.id, m) <==> Leads(at.ir, at.languages, Inward, at.loop.id, m) {
      ReachIsLeads(at.ir, at.languages, Inward, BodyRel(g), at.loop.id, m);
    }
  }

  /** body and names are those of the loop, and the graph holds what is read. */
  ghost predicate Computed(t: RetryText, at: Place, g: Graph, body: set<Id>, names: set<string>) {
    && (forall n: Id :: n in body <==> Owned(at, n)) && body <= g.ops.Keys
    && (forall x :: x in names <==> AssignedIn(t, at, x))
    && (forall id :: id in g.ops ==> Reads(at.ir, at.languages, g.ops[id]) && g.ops[id].id == id)
    && (forall op :: Reads(at.ir, at.languages, op) ==> op.id in g.ops && g.ops[op.id] == op)
  }

  lemma Compute(t: RetryText, at: Place, g: Graph, operations: seq<Op>, body: set<Id>, names: set<string>)
    requires UniqueIds(at.ir.operations)
    requires g == GraphOfIr(at.ir, at.languages) && operations == ScopeOps(at.ir, at.languages, at.loop.scope)
    requires body == BodySet(g, at.loop.id) && names == AssignedNames(t, operations, body)
    ensures Computed(t, at, g, body, names)
  {
    BodyInside(g, at.loop.id);
    forall n: Id ensures n in body <==> Owned(at, n) {
      BodyIsOwned(at, n);
    }
    forall op | Reads(at.ir, at.languages, op) ensures op.id in g.ops && g.ops[op.id] == op {
      KeptOperation(at.ir, at.languages, op);
    }
    NamesAreAssigned(t, at, operations, body, names);
  }

  lemma NamesAreAssigned(t: RetryText, at: Place, operations: seq<Op>, body: set<Id>, names: set<string>)
    requires operations == ScopeOps(at.ir, at.languages, at.loop.scope) && names == AssignedNames(t, operations, body)
    requires forall n: Id :: n in body <==> Owned(at, n)
    ensures forall x :: x in names <==> AssignedIn(t, at, x)
  {
    forall op ensures Reads(at.ir, at.languages, op) && op.scope == at.loop.scope <==> op in operations {}
  }

  // ---------- ways back ----------

  lemma ImmediateLetsPass(
        t: RetryText, at: Place, names: set<string>, op: Op, errorVariable: string)
    requires forall x :: x in names <==> AssignedIn(t, at, x)
    ensures Immediate(t, op, names, errorVariable) <==> LetsPass(t, at, errorVariable, op)
  {
    ImmediateMeaning(t, op, names, errorVariable);
  }

  lemma LoopsBackIsOutcome(at: Place, g: Graph, n: Id)
    requires UniqueIds(at.ir.operations) && g == GraphOfIr(at.ir, at.languages)
    ensures LoopsBack(g, n, at.loop.id) <==> Outcome(at.ir, at.languages, n, EdgeKind.LoopBack, at.loop.id)
  {
    OutcomeIsArc(at.ir, at.languages, n, EdgeKind.LoopBack, at.loop.id);
    if LoopsBack(g, n, at.loop.id) {
      var a :| a in g.arcs && a.kind.LoopBack? && a.source == n && a.target == at.loop.id;
      assert a == Arc(n, at.loop.id, EdgeKind.LoopBack);
    }
  }

  lemma StartsAreOutcomes(at: Place, g: Graph, branch: Id, outcome: EdgeKind, n: Id)
    requires UniqueIds(at.ir.operations) && g == GraphOfIr(at.ir, at.languages) && Flows(outcome)
    ensures n in OutcomeTargets(g, branch, outcome) <==> Outcome(at.ir, at.languages, branch, outcome, n)
  {
    OutcomeIsArc(at.ir, at.languages, branch, outcome, n);
    if n in OutcomeTargets(g, branch, outcome) {
      var a :| a in g.arcs && a.source == branch && a.kind == outcome && a.target == n;
      assert a == Arc(branch, n, outcome);
    }
  }

  lemma ImmediateIsAllPass(
        t: RetryText, at: Place, g: Graph, body: set<Id>, names: set<string>, errorVariable: string, p: seq<Id>)
    requires Computed(t, at, g, body, names) && forall i :: 0 <= i < |p| ==> p[i] in g.ops
    ensures AllPass(t, at, errorVariable, p) <==>
            forall i :: 1 <= i < |p| ==> Immediate(t, g.ops[p[i]], names, errorVariable)
  {
    forall i | 1 <= i < |p|
      ensures Reads(at.ir, at.languages, g.ops[p[i]]) && g.ops[p[i]].id == p[i]
      ensures Immediate(t, g.ops[p[i]], names, errorVariable) <==> LetsPass(t, at, errorVariable, g.ops[p[i]])
    {
      ImmediateLetsPass(t, at, names, g.ops[p[i]], errorVariable);
    }
  }

  /** Inside the body the analyzer's walk and the way back ask the same of every operation. */
  lemma SameOnBody(
        t: RetryText, at: Place, g: Graph, body: set<Id>, names: set<string>, errorVariable: string, p: seq<Id>)
    requires Computed(t, at, g, body, names)
    ensures && (forall i :: 0 <= i < |p| ==> p[i] in body && p[i] in g.ops)
            && (forall i :: 1 <= i < |p| ==> Immediate(t, g.ops[p[i]], names, errorVariable))
            <==> (forall i :: 0 <= i < |p| ==> Owned(at, p[i])) && AllPass(t, at, errorVariable, p)
  {
    if forall i :: 0 <= i < |p| ==> p[i] in body {
      ImmediateIsAllPass(t, at, g, body, names, errorVariable, p);
    }
  }

  lemma RetryWalkIsWayBack(
        t: RetryText, at: Place, g: Graph, body: set<Id>, names: set<string>, errorVariable: string, branch: Id,
        outcome: EdgeKind, p: seq<Id>)
    requires UniqueIds(at.ir.operations) && g == GraphOfIr(at.ir, at.languages)
    requires Computed(t, at, g, body, names) && Flows(outcome) && p != []
    ensures RetryWalk(g, t, OutcomeTargets(g, branch, outcome), at.loop.id, body, names, errorVariable, p) <==>
            WayBack(t, at, errorVariable, branch, outcome, p)
  {
    RelationsAreSteps(at.ir, at.languages);
    WalksAreWays(at.ir, at.languages, Onward, LoopFreeRel(g), p);
    StartsAreOutcomes(at, g, branch, outcome, p[0]);
    LoopsBackIsOutcome(at, g, p[|p| - 1]);
    SameOnBody(t, at, g, body, names, errorVariable, p);
  }

  /** The analyzer's search from an outcome finds a way back. */
  lemma RetriesIsWayBack(
        t: RetryText, at: Place, g: Graph, body: set<Id>, names: set<string>, errorVariable: string, branch: Id,
        outcome: EdgeKind)
    requires UniqueIds(at.ir.operations) && g == GraphOfIr(at.ir, at.languages) && Computed(t, at, g, body, names)
    ensures Retries(g, RetryRel(g, t, body, names, errorVariable), OutcomeTargets(g, branch, outcome), at.loop.id,
            body) <==>
            Flows(outcome) && exists p :: WayBack(t, at, errorVariable, branch, outcome, p)
  {
    RetriesMeansWalk(g, t, OutcomeTargets(g, branch, outcome), at.loop.id, body, names, errorVariable);
    if Flows(outcome) {
      SomeWayBack(t, at, g, OutcomeTargets(g, branch, outcome), body, names, errorVariable, branch, outcome);
    } else {
      NoSuchOutcome(at, g, branch, outcome);
    }
  }

  lemma SomeWayBack(
        t: RetryText, at: Place, g: Graph, starts: set<Id>, body: set<Id>, names: set<string>, errorVariable: string,
        branch: Id, outcome: EdgeKind)
    requires UniqueIds(at.ir.operations) && g == GraphOfIr(at.ir, at.languages) && Computed(t, at, g, body, names)
    requires Flows(outcome) && starts == OutcomeTargets(g, branch, outcome)
    ensures (exists w :: RetryWalk(g, t, starts, at.loop.id, body, names, errorVariable, w)) <==>
            exists p :: WayBack(t, at, errorVariable, branch, outcome, p)
  {
    if w :| RetryWalk(g, t, starts, at.loop.id, body, names, errorVariable, w) {
      RetryWalkIsWayBack(t, at, g, body, names, errorVariable, branch, outcome, w);
    }
    if p :| WayBack(t, at, errorVariable, branch, outcome, p) {
      RetryWalkIsWayBack(t, at, g, body, names, errorVariable, branch, outcome, p);
    }
  }

  lemma BranchReportsIsRetriesOn(
        t: RetryText, at: Place, g: Graph, body: set<Id>, names: set<string>, call: Op, branch: Op)
    requires UniqueIds(at.ir.operations) && g == GraphOfIr(at.ir, at.languages) && Computed(t, at, g, body, names)
    ensures BranchReports(t, g, at.loop, body, names, call, branch) <==>
            Owned(at, branch.id) && RetriesOn(t, at, call, branch)
  {
    var outcome := t.errorOutcome(branch, t.resultNames(call));
    if outcome.Some? {
      RetriesIsWayBack(t, at, g, body, names, outcome.value.0, branch.id, outcome.value.1);
    }
  }

  lemma NoSuchOutcome(at: Place, g: Graph, branch: Id, outcome: EdgeKind)
    requires g == GraphOfIr(at.ir, at.languages) && !Flows(outcome)
    ensures OutcomeTargets(g, branch, outcome) == {}
  {
    forall a | a in g.arcs ensures a.kind != outcome {
      ArcFlows(at.ir, at.languages, a);
    }
  }

  // ---------- the report ----------

  /** The triples the analyzer must report, read off the program. */
  lemma DueIff(t: RetryText, at: Place, call: Op, branch: Op)
    requires UniqueIds(at.ir.operations)
    requires at.loop in at.ir.operations && call in at.ir.operations && branch in at.ir.operations
    ensures Due(t, at.ir, at.languages, Mark(at.loop.id, call.id, branch.id, true)) <==>
            RetriesBlindly(t, at, call, branch)
  {
    var m := Mark(at.loop.id, call.id, branch.id, true);
    if RetriesBlindly(t, at, call, branch) { BlindRetryIsDue(t, at, call, branch); }
    if Due(t, at.ir, at.languages, m) {
      var scope: Id :| scope != NO_ID && DueInScope(t, at.ir, at.languages, scope, m);
      DueIsBlindRetry(t, at, call, branch, scope);
    }
  }

  lemma BlindRetryIsDue(t: RetryText, at: Place, call: Op, branch: Op)
    requires UniqueIds(at.ir.operations) && RetriesBlindly(t, at, call, branch)
    ensures Due(t, at.ir, at.languages, Mark(at.loop.id, call.id, branch.id, true))
  {
    var g, operations := GraphOfIr(at.ir, at.languages), ScopeOps(at.ir, at.languages, at.loop.scope);
    var body := BodySet(g, at.loop.id);
    var names := AssignedNames(t, operations, body);
    var m := Mark(at.loop.id, call.id, branch.id, true);
    Compute(t, at, g, operations, body, names);
    BranchReportsIsRetriesOn(t, at, g, body, names, call, branch);
    assert at.loop in operations && call in operations && branch in BranchesOf(operations);
    assert MarkedForCall(t, g, at.loop, body, names, call, BranchesOf(operations), m);
    assert Eligible(t, call, body);
    assert MarkedForOps(t, g, operations, at.loop, m);
    assert DueInScope(t, at.ir, at.languages, at.loop.scope, m);
  }

  lemma SameOperation(ops: seq<Op>, a: Op, b: Op)
    requires UniqueIds(ops) && a in ops && b in ops && a.id == b.id
    ensures a == b
  {
    UniqueLookup(ops, a);
    UniqueLookup(ops, b);
  }

  lemma DueIsBlindRetry(t: RetryText, at: Place, call: Op, branch: Op, scope: Id)
    requires UniqueIds(at.ir.operations) && scope != NO_ID
    requires at.loop in at.ir.operations && call in at.ir.operations && branch in at.ir.operations
    requires DueInScope(t, at.ir, at.languages, scope, Mark(at.loop.id, call.id, branch.id, true))
    ensures RetriesBlindly(t, at, call, branch)
  {
    var g, operations := GraphOfIr(at.ir, at.languages), ScopeOps(at.ir, at.languages, scope);
    var m := Mark(at.loop.id, call.id, branch.id, true);
    var l :| l in operations && l.kind.Loop? && t.unbounded(l) && MarkedForOps(t, g, operations, l, m);
    SameOperation(at.ir.operations, l, at.loop);
    var body := BodySet(g, at.loop.id);
    Compute(t, at, g, operations, body, AssignedNames(t, operations, body));
    MarkedIsBlindRetry(t, at, g, operations, body, AssignedNames(t, operations, body), call, branch, m);
  }

  lemma MarkedIsBlindRetry(
        t: RetryText, at: Place, g: Graph, operations: seq<Op>, body: set<Id>, names: set<string>, call: Op,
        branch: Op, m: Mark)
    requires UniqueIds(at.ir.operations) && g == GraphOfIr(at.ir, at.languages) && Computed(t, at, g, body, names)
    requires forall op :: op in operations ==> Reads(at.ir, at.languages, op) && op.scope == at.loop.scope
    requires at.loop in operations && at.loop.kind.Loop? && t.unbounded(at.loop) && at.loop.scope != NO_ID
    requires call in at.ir.operations && branch in at.ir.operations
    requires m == Mark(at.loop.id, call.id, branch.id, true)
    requires MarkedForLoop(t, g, at.loop, body, names, operations, BranchesOf(operations), m)
    ensures RetriesBlindly(t, at, call, branch)
  {
    var c :| c in operations && Eligible(t, c, body) &&
             MarkedForCall(t, g, at.loop, body, names, c, BranchesOf(operations), m);
    var b :| b in BranchesOf(operations) && b.id == m.branch && MarkedBranch(t, g, at.loop, body, names, c, b, true);
    SameOperation(at.ir.operations, c, call);
    SameOperation(at.ir.operations, b, branch);
    BranchReportsIsRetriesOn(t, at, g, body, names, call, branch);
  }

  // ---------- the order of the report ----------

  predicate LineBefore(a: Op, b: Op) {
    a.line < b.line || (a.line == b.line && a.id < b.id)
  }

  ghost predicate ListedBefore(ops: seq<Op>, a: Op, b: Op) {
    exists i, j :: 0 <= i < j < |ops| && ops[i] == a && ops[j] == b
  }

  /** By scope, then by the line of the loop, then by the line of the call, then as the branches are listed. */
  ghost predicate Precedes(ops: seq<Op>, v: Violation, w: Violation) {
    || v.loop.scope < w.loop.scope
    || (v.loop.scope == w.loop.scope && LineBefore(v.loop, w.loop))
    || (v.loop == w.loop && LineBefore(v.call, w.call))
    || (v.loop == w.loop && v.call == w.call && ListedBefore(ops, v.branch, w.branch))
  }

  ghost predicate Listed(ops: seq<Op>, vs: seq<Violation>) {
    forall i, j :: 0 <= i < j < |vs| ==> Precedes(ops, vs[i], vs[j])
  }

  lemma JoinInOrder(ops: seq<Op>, a: seq<Violation>, b: seq<Violation>)
    requires Listed(ops, a) && Listed(ops, b) && forall v, w :: v in a && w in b ==> Precedes(ops, v, w)
    ensures Listed(ops, a + b)
  {}

  lemma {:induction false} PlaceOf(f: Op -> bool, ops: seq<Op>, i: nat) returns (k: nat)
    requires i < |Filter(f, ops)|
    ensures k < |ops| && ops[k] == Filter(f, ops)[i]
  {
    var x := Filter(f, ops)[i];
    assert x in Filter(f, ops);
    k :| 0 <= k < |ops| && ops[k] == x;
  }

  /** Where two elements of a filtered list stand. */
  lemma {:induction false} PlacesOf(f: Op -> bool, ops: seq<Op>, i: nat, j: nat) returns (k: nat, l: nat)
    requires i < j < |Filter(f, ops)|
    ensures k < l < |ops| && ops[k] == Filter(f, ops)[i] && ops[l] == Filter(f, ops)[j]
    decreases |ops|
  {
    var rest := Filter(f, ops[1..]);
    assert Filter(f, ops) == (if f(ops[0]) then [ops[0]] else []) + rest;
    if f(ops[0]) && i == 0 {
      l := PlaceOf(f, ops[1..], j - 1);
      k, l := 0, l + 1;
    } else {
      var d := if f(ops[0]) then 1 else 0;
      k, l := PlacesOf(f, ops[1..], i - d, j - d);
      k, l := k + 1, l + 1;
    }
  }

  /** Later in a filtered list is later in the list. */
  lemma FilterKeepsListing(f: Op -> bool, ops: seq<Op>, a: Op, b: Op)
    requires ListedBefore(Filter(f, ops), a, b)
    ensures ListedBefore(ops, a, b)
  {
    var i, j :| 0 <= i < j < |Filter(f, ops)| && Filter(f, ops)[i] == a && Filter(f, ops)[j] == b;
    var k, l := PlacesOf(f, ops, i, j);
  }

  lemma SortedIsLineBefore(ops: seq<Op>, i: nat, j: nat)
    requires UniqueIds(ops) && i < j < |Sort(ByLine, ops)|
    ensures LineBefore(Sort(ByLine, ops)[i], Sort(ByLine, ops)[j])
  {
    SortIsSorted(ByLine, ops);
    SortKeepsUnique(ByLine, ops);
  }

  lemma {:induction false} OverBranchesAre(
        t: RetryText, g: Graph, loop: Op, body: set<Id>, names: set<string>, call: Op, branches: seq<Op>, v: Violation)
    ensures v in OverBranches(t, g, loop, body, names, call, branches) ==>
              v.loop == loop && v.call == call && v.branch in branches
    decreases |branches|
  {
    if branches != [] {
      SplitLast(branches);
      OverBranchesAre(t, g, loop, body, names, call, branches[..|branches| - 1], v);
    }
  }

  lemma {:induction false} BranchesInOrder(
        t: RetryText, g: Graph, loop: Op, body: set<Id>, names: set<string>, call: Op, branches: seq<Op>, ops: seq<Op>)
    requires forall i, j :: 0 <= i < j < |branches| ==> ListedBefore(ops, branches[i], branches[j])
    ensures Listed(ops, OverBranches(t, g, loop, body, names, call, branches))
    decreases |branches|
  {
    if branches != [] {
      var n := |branches| - 1;
      var before, last := OverBranches(t, g, loop, body, names, call, branches[..n]),
                          ViolationsAt(t, g, loop, body, names, call, branches[n]);
      BranchesInOrder(t, g, loop, body, names, call, branches[..n], ops);
      forall v, w | v in before && w in last ensures Precedes(ops, v, w) {
        OverBranchesAre(t, g, loop, body, names, call, branches[..n], v);
        var i :| 0 <= i < n && branches[i] == v.branch;
        assert ListedBefore(ops, branches[i], branches[n]);
      }
      JoinInOrder(ops, before, last);
    }
  }

  lemma {:induction false} OverCallsAre(
        t: RetryText, g: Graph, loop: Op, body: set<Id>, names: set<string>, calls: seq<Op>, branches: seq<Op>,
        v: Violation)
    ensures v in OverCalls(t, g, loop, body, names, calls, branches) ==> v.loop == loop && v.call in calls
    decreases |calls|
  {
    if calls != [] {
      SplitLast(calls);
      OverCallsAre(t, g, loop, body, names, calls[..|calls| - 1], branches, v);
      OverBranchesAre(t, g, loop, body, names, calls[|calls| - 1], branches, v);
    }
  }

  lemma {:induction false} CallsInOrder(
        t: RetryText, g: Graph, loop: Op, body: set<Id>, names: set<string>, calls: seq<Op>, branches: seq<Op>,
        ops: seq<Op>)
    requires forall i, j :: 0 <= i < j < |branches| ==> ListedBefore(ops, branches[i], branches[j])
    requires forall i, j :: 0 <= i < j < |calls| ==> LineBefore(calls[i], calls[j])
    ensures Listed(ops, OverCalls(t, g, loop, body, names, calls, branches))
    decreases |calls|
  {
    if calls != [] {
      var n := |calls| - 1;
      var before, last := OverCalls(t, g, loop, body, names, calls[..n], branches),
                          OverBranches(t, g, loop, body, names, calls[n], branches);
      CallsInOrder(t, g, loop, body, names, calls[..n], branches, ops);
      BranchesInOrder(t, g, loop, body, names, calls[n], branches, ops);
      forall v, w | v in before && w in last ensures Precedes(ops, v, w) {
        OverCallsAre(t, g, loop, body, names, calls[..n], branches, v);
        OverBranchesAre(t, g, loop, body, names, calls[n], branches, w);
        var i :| 0 <= i < n && calls[i] == v.call;
        assert LineBefore(calls[i], calls[n]);
      }
      JoinInOrder(ops, before, last);
    }
  }

  lemma LoopInOrder(t: RetryText, g: Graph, ir: SemanticIR, languages: set<string>, scope: Id, loop: Op)
    requires UniqueIds(ir.operations)
    ensures LoopListed(t, g, ir.operations, ScopeOps(ir, languages, scope), loop)
  {
    var operations, body := ScopeOps(ir, languages, scope), BodySet(g, loop.id);
    var names, calls, branches := AssignedNames(t, operations, body), CallsIn(operations, body), BranchesOf(operations);
    ScopeOpsUnique(ir, languages, scope);
    FilterKeepsUnique((op: Op) => op.id in body && op.kind.Call?, operations);
    forall i, j | 0 <= i < j < |calls| ensures LineBefore(calls[i], calls[j]) {
      SortedIsLineBefore(Filter((op: Op) => op.id in body && op.kind.Call?, operations), i, j);
    }
    forall i, j | 0 <= i < j < |branches| ensures ListedBefore(ir.operations, branches[i], branches[j]) {
      FilterKeepsListing((op: Op) => op.kind.Branch?, operations, branches[i], branches[j]);
      FilterKeepsListing((op: Op) => op.scope == scope, KeptOps(ir.operations, languages), branches[i], branches[j]);
      FilterKeepsListing((op: Op) => Kept(op, languages), ir.operations, branches[i], branches[j]);
    }
    CallsInOrder(t, g, loop, body, names, calls, branches, ir.operations);
    forall v | v in LoopViolations(t, g, operations, loop) ensures v.loop == loop {
      OverCallsAre(t, g, loop, body, names, calls, branches, v);
    }
  }

  lemma {:induction false} LoopsInOrder(
        t: RetryText, g: Graph, ops: seq<Op>, operations: seq<Op>, scope: Id, loops: seq<Op>)
    requires forall l :: l in loops ==> l.scope == scope && LoopListed(t, g, ops, operations, l)
    requires forall i, j :: 0 <= i < j < |loops| ==> LineBefore(loops[i], loops[j])
    ensures Listed(ops, OverLoops(t, g, operations, loops))
    ensures forall v :: v in OverLoops(t, g, operations, loops) ==> v.loop in loops
    decreases |loops|
  {
    if loops != [] {
      SplitLast(loops);
      var n := |loops| - 1;
      assert loops[n] in loops;
      LoopsInOrder(t, g, ops, operations, scope, loops[..n]);
      var before, last := OverLoops(t, g, operations, loops[..n]), LoopViolations(t, g, operations, loops[n]);
      forall v, w | v in before && w in last ensures Precedes(ops, v, w) {
        var i :| 0 <= i < n && loops[i] == v.loop;
        assert LineBefore(loops[i], loops[n]);
      }
      JoinInOrder(ops, before, last);
    }
  }

  ghost predicate LoopListed(t: RetryText, g: Graph, ops: seq<Op>, operations: seq<Op>, loop: Op) {
    && Listed(ops, LoopViolations(t, g, operations, loop))
    && forall v :: v in LoopViolations(t, g, operations, loop) ==> v.loop == loop
  }

  lemma ScopeInOrder(t: RetryText, g: Graph, ir: SemanticIR, languages: set<string>, scope: Id)
    requires UniqueIds(ir.operations)
    ensures var operations := ScopeOps(ir, languages, scope);
            && Listed(ir.operations, OverLoops(t, g, operations, LoopsOf(operations)))
            && forall v :: v in OverLoops(t, g, operations, LoopsOf(operations)) ==> v.loop.scope == scope
  {
    var operations := ScopeOps(ir, languages, scope);
    var loops := LoopsOf(operations);
    ScopeOpsUnique(ir, languages, scope);
    LoopsOfAre(operations);
    FilterKeepsUnique((op: Op) => op.kind.Loop?, operations);
    forall i, j | 0 <= i < j < |loops| ensures LineBefore(loops[i], loops[j]) {
      SortedIsLineBefore(Filter((op: Op) => op.kind.Loop?, operations), i, j);
    }
    forall l | l in loops ensures l.scope == scope && LoopListed(t, g, ir.operations, operations, l) {
      LoopInOrder(t, g, ir, languages, scope, l);
    }
    LoopsInOrder(t, g, ir.operations, operations, scope, loops);
  }

  lemma {:induction false} ScopesInOrder(
        t: RetryText, g: Graph, ir: SemanticIR, languages: set<string>, scopes: seq<Id>)
    requires UniqueIds(ir.operations) && Ascending(scopes)
    ensures Listed(ir.operations, OverScopes(t, g, ir, languages, scopes))
    ensures forall v :: v in OverScopes(t, g, ir, languages, scopes) ==> v.loop.scope in scopes
    decreases |scopes|
  {
    if scopes != [] {
      SplitLast(scopes);
      var n := |scopes| - 1;
      ScopesInOrder(t, g, ir, languages, scopes[..n]);
      ScopeInOrder(t, g, ir, languages, scopes[n]);
      var operations := ScopeOps(ir, languages, scopes[n]);
      JoinInOrder(ir.operations, OverScopes(t, g, ir, languages, scopes[..n]),
        OverLoops(t, g, operations, LoopsOf(operations)));
    }
  }

  /** The violations are listed by scope, loop, call and branch. */
  lemma ViolationsInOrder(t: RetryText, ir: SemanticIR, languages: set<string>)
    requires UniqueIds(ir.operations)
    ensures Listed(ir.operations, ViolationsOf(t, ir, languages))
  {
    ScopesInOrder(t, GraphOfIr(ir, languages), ir, languages, SortedSet(ScopesOf(ir, languages)));
  }

  // ---------- what a violation says ----------

  lemma {:induction false} BranchWitness(
        t: RetryText, g: Graph, loop: Op, body: set<Id>, names: set<string>, call: Op, branches: seq<Op>, v: Violation)
    requires v in OverBranches(t, g, loop, body, names, call, branches)
    ensures Witnessed(t, g, body, names, v)
    decreases |branches|
  {
    SplitLast(branches);
    if v in OverBranches(t, g, loop, body, names, call, branches[..|branches| - 1]) {
      BranchWitness(t, g, loop, body, names, call, branches[..|branches| - 1], v);
    }
  }

  lemma {:induction false} CallWitness(
        t: RetryText, g: Graph, loop: Op, body: set<Id>, names: set<string>, calls: seq<Op>, branches: seq<Op>,
        v: Violation)
    requires v in OverCalls(t, g, loop, body, names, calls, branches)
    ensures Witnessed(t, g, body, names, v)
    decreases |calls|
  {
    if v in OverCalls(t, g, loop, body, names, calls[..|calls| - 1], branches) {
      CallWitness(t, g, loop, body, names, calls[..|calls| - 1], branches, v);
    } else {
      BranchWitness(t, g, loop, body, names, calls[|calls| - 1], branches, v);
    }
  }

  ghost predicate WitnessedIn(t: RetryText, g: Graph, operations: seq<Op>, v: Violation) {
    Witnessed(t, g, BodySet(g, v.loop.id), AssignedNames(t, operations, BodySet(g, v.loop.id)), v)
  }

  lemma {:induction false} LoopWitness(t: RetryText, g: Graph, operations: seq<Op>, loops: seq<Op>, v: Violation)
    requires v in OverLoops(t, g, operations, loops)
    ensures v.loop in loops && WitnessedIn(t, g, operations, v)
    decreases |loops|
  {
    var n := |loops| - 1;
    if v in OverLoops(t, g, operations, loops[..n]) {
      LoopWitness(t, g, operations, loops[..n], v);
    } else {
      var body := BodySet(g, loops[n].id);
      var names := AssignedNames(t, operations, body);
      OverCallsAre(t, g, loops[n], body, names, CallsIn(operations, body), BranchesOf(operations), v);
      CallWitness(t, g, loops[n], body, names, CallsIn(operations, body), BranchesOf(operations), v);
    }
  }

  lemma {:induction false} ScopeWitness(
        t: RetryText, g: Graph, ir: SemanticIR, languages: set<string>, scopes: seq<Id>, v: Violation)
    requires UniqueIds(ir.operations) && v in OverScopes(t, g, ir, languages, scopes)
    ensures v.loop.scope in scopes && WitnessedIn(t, g, ScopeOps(ir, languages, v.loop.scope), v)
    decreases |scopes|
  {
    var n := |scopes| - 1;
    if v in OverScopes(t, g, ir, languages, scopes[..n]) {
      ScopeWitness(t, g, ir, languages, scopes[..n], v);
    } else {
      var operations := ScopeOps(ir, languages, scopes[n]);
      LoopWitness(t, g, operations, LoopsOf(operations), v);
      ScopeOpsUnique(ir, languages, scopes[n]);
      LoopsOfAre(operations);
    }
  }

  /** The loop-back operation of a violation ends a way back from the error outcome of its branch. */
  lemma ViolationHasWayBack(t: RetryText, ir: SemanticIR, languages: set<string>, v: Violation)
    requires UniqueIds(ir.operations) && v in ViolationsOf(t, ir, languages)
    ensures var outcome := t.errorOutcome(v.branch, t.resultNames(v.call));
            && outcome.Some? && outcome.value.0 == v.errorVariable
            && Reads(ir, languages, v.loopBack)
            && exists p ::
                 WayBack(t, Place(ir, languages, v.loop), v.errorVariable, v.branch.id, outcome.value.1, p) &&
                 p[|p| - 1] == v.loopBack.id
  {
    var at, g := Place(ir, languages, v.loop), GraphOfIr(ir, languages);
    var operations := ScopeOps(ir, languages, v.loop.scope);
    var body := BodySet(g, v.loop.id);
    var names := AssignedNames(t, operations, body);
    ScopeWitness(t, g, ir, languages, SortedSet(ScopesOf(ir, languages)), v);
    Compute(t, at, g, operations, body, names);
    var outcome := t.errorOutcome(v.branch, t.resultNames(v.call)).value;
    FirstRetries(g, t, OutcomeTargets(g, v.branch.id, outcome.1), v.loop.id, body, names, outcome.0, v.loopBack.id);
    if !Flows(outcome.1) { NoSuchOutcome(at, g, v.branch.id, outcome.1); }
    var p := WalkTo(t, g, OutcomeTargets(g, v.branch.id, outcome.1), v.loop.id, body, names, outcome.0, v.loopBack.id);
    RetryWalkIsWayBack(t, at, g, body, names, outcome.0, v.branch.id, outcome.1, p);
  }

  lemma WalkTo(
        t: RetryText, g: Graph, starts: set<Id>, loop: Id, body: set<Id>, names: set<string>, errorVariable: string,
        n: Id)
    returns (p: seq<Id>)
    requires WellFormed(g) && RetriesAt(g, RetryRel(g, t, body, names, errorVariable), starts, loop, body, n)
    ensures RetryWalk(g, t, starts, loop, body, names, errorVariable, p) && p[|p| - 1] == n
  {
    var rel := RetryRel(g, t, body, names, errorVariable);
    var s :| s in starts && ReachStar(rel, s, n);
    p := [n];
    if s != n {
      p :| WalkFromTo(rel, p, s, n) && |p| > 1;
    }
    ReachedWalkIsRetryWalk(g, t, starts, loop, body, names, errorVariable, p);
  }
}
