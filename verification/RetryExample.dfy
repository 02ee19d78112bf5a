/** A loop that sleeps before it retries and is reported all the same. */
module RetryExample {
  import opened Sequences
  import opened Walks
  import opened Ir
  import opened ControlFlow
  import opened Programs
  import opened RetryLoops
  import opened RetryReadings

  // for { c, err := l.Accept(); if err != nil { time.Sleep(d); continue } }

  function LoopOp(id: Id, kind: OpKind, target: string, host: Id): Op {
    Op(id, kind, "go", 9, id, id, target, "", host, [], [])
  }

  const LOOP := LoopOp(1, Loop, "", NO_ID)
  const CHECK := LoopOp(4, Branch, "", NO_ID)
  const ACCEPT := LoopOp(3, Call, "l.Accept", 2)
  const SLEEP := LoopOp(5, Call, "time.Sleep", NO_ID)

  predicate IsBackoff(ir: SemanticIR) {
    && ir.operations == [LOOP, LoopOp(2, Assign, "c, err", NO_ID), ACCEPT, CHECK, SLEEP, LoopOp(6, Continue, "", NO_ID)]
    && ir.edges == [
         Edge(1, 2, EdgeKind.Body, ""), Edge(3, 2, EdgeKind.Next, ""), Edge(2, 4, EdgeKind.Next, ""),
         Edge(4, 5, EdgeKind.TrueBranch, ""), Edge(5, 6, EdgeKind.Next, ""), Edge(6, 1, EdgeKind.LoopBack, "")]
  }

  /** The readers on these operations: l.Accept is risky, the branch checks its error, and only the
      sleep mitigates. */
  const TEXT := RetryText(
    (op: Op) => op.kind.Loop?,
    (op: Op) => op.id == 3,
    (op: Op) => if op.id == 3 then ["err"] else [],
    (op: Op, names: seq<string>) => if op.id == 4 && names != [] then Some(("err", EdgeKind.TrueBranch)) else None,
    (op: Op) => {},
    (condition: string) => false,
    (condition: string) => {},
    (call: string) => call == "time.Sleep",
    (call: string) => false)

  lemma BackoffFlow(ir: SemanticIR)
    requires IsBackoff(ir)
    ensures Numbered(ir.operations) && FlowsInside(ir.operations, ir.edges)
    ensures forall e :: e in ir.edges && e.source == 4 && e.kind.TrueBranch? ==> e.target == 5
  {}

  lemma BackoffArcs(ir: SemanticIR, arcs: set<Arc>)
    requires IsBackoff(ir) && forall e :: e in ir.edges ==> ArcOf(e) in arcs
    ensures Arc(1, 2, Body) in arcs && Arc(3, 2, Next) in arcs && Arc(2, 4, Next) in arcs
    ensures Arc(4, 5, TrueBranch) in arcs && Arc(5, 6, Next) in arcs && Arc(6, 1, LoopBack) in arcs
  {
    var edges := ir.edges;
    assert edges[0] in edges && edges[1] in edges && edges[2] in edges;
    assert edges[3] in edges && edges[4] in edges && edges[5] in edges;
  }

  lemma BackoffBody(g: Graph)
    requires Arc(1, 2, Body) in g.arcs && Arc(3, 2, Next) in g.arcs && Arc(2, 4, Next) in g.arcs
    requires Arc(4, 5, TrueBranch) in g.arcs && Arc(5, 6, Next) in g.arcs
    ensures InBody(g, 1, 3) && InBody(g, 1, 4) && InBody(g, 1, 5) && InBody(g, 1, 6)
  {
    var r := BodyRel(g);
    assert (1, 2) in r && (2, 4) in r && (4, 5) in r && (5, 6) in r && (3, 2) in Rel(g);
    assert WalkFromTo(r, [1, 2], 1, 2) && WalkFromTo(r, [1, 2, 4], 1, 4);
    assert WalkFromTo(r, [1, 2, 4, 5], 1, 5) && WalkFromTo(r, [1, 2, 4, 5, 6], 1, 6);
    assert InCore(g, 1, 2);
  }

  lemma OnlyTheSleep(g: Graph, edges: seq<Edge>)
    requires ArcsUp(g.arcs, edges) && Arc(4, 5, TrueBranch) in g.arcs
    requires forall e :: e in edges && e.source == 4 && e.kind.TrueBranch? ==> e.target == 5
    ensures OutcomeTargets(g, 4, TrueBranch) == {5}
  {}

  /** From the sleep the analyzer sees the continue go back; the documented reading stops at it. */
  lemma SleepIsSkipped(g: Graph, body: set<Id>, guardNames: set<string>)
    requires WellFormed(g) && 5 in g.ops && 6 in g.ops && g.ops[5] == SLEEP && g.ops[6].kind.Continue?
    requires Arc(5, 6, Next) in g.arcs && Arc(6, 1, LoopBack) in g.arcs && 5 in body && 6 in body
    ensures CodeRetry(g, TEXT, {5}, 1, body, guardNames, "err")
    ensures !DocumentedRetry(g, TEXT, {5}, 1, body, guardNames, "err")
  {
    assert (5, 6) in LoopFreeRel(g);
    assert RetryWalk(g, TEXT, {5}, 1, body, guardNames, "err", [5, 6]);
    RetriesMeansWalk(g, TEXT, {5}, 1, body, guardNames, "err");
    assert IsMitigation(TEXT, SLEEP, guardNames, "err");
  }

  lemma BackoffOps(ir: SemanticIR, g: Graph)
    requires IsBackoff(ir) && g == GraphOfIr(ir, {})
    ensures UniqueIds(ir.operations) && LooksUp(g.ops, ir.operations) && ArcsUp(g.arcs, ir.edges)
  {
    BackoffFlow(ir);
    NumberedGraph(ir, g);
    NumberedArcs(ir, g);
  }

  /** A graph with the operations and arcs of the program. */
  ghost predicate BackoffShape(g: Graph) {
    && WellFormed(g) && (forall id: Id :: id in g.ops <==> 1 <= id <= 6)
    && g.ops[5] == SLEEP && g.ops[6].kind.Continue?
    && OutcomeTargets(g, 4, TrueBranch) == {5} && Arc(5, 6, Next) in g.arcs && Arc(6, 1, LoopBack) in g.arcs
    && InBody(g, 1, 3) && InBody(g, 1, 4) && InBody(g, 1, 5) && InBody(g, 1, 6)
  }

  lemma BackoffGraph(ir: SemanticIR, g: Graph)
    requires IsBackoff(ir) && WellFormed(g) && LooksUp(g.ops, ir.operations) && ArcsUp(g.arcs, ir.edges)
    ensures BackoffShape(g)
  {
    BackoffFlow(ir);
    BackoffArcs(ir, g.arcs);
    OnlyTheSleep(g, ir.edges);
    BackoffBody(g);
  }

  lemma SleepIsReported(g: Graph, operations: seq<Op>)
    requires BackoffShape(g) && LOOP in operations && ACCEPT in operations && CHECK in operations
    ensures MarkedInScope(TEXT, g, operations, Mark(1, 3, 4, true))
  {
    var body := BodySet(g, 1);
    var guardNames := AssignedNames(TEXT, operations, body);
    SleepIsSkipped(g, body, guardNames);
    assert BranchReports(TEXT, g, LOOP, body, guardNames, ACCEPT, CHECK);
    assert CHECK in BranchesOf(operations);
    assert MarkedForCall(TEXT, g, LOOP, body, guardNames, ACCEPT, BranchesOf(operations), Mark(1, 3, 4, true));
    assert Eligible(TEXT, ACCEPT, body);
  }

  /** The analyzer reports this program, although the only way back passes a sleep. */
  lemma SleepingRetryIsReported(ir: SemanticIR, g: Graph, guardNames: set<string>)
    requires IsBackoff(ir) && g == GraphOfIr(ir, {})
    ensures UniqueIds(ir.operations) && Due(TEXT, ir, {}, Mark(LOOP.id, ACCEPT.id, CHECK.id, true))
    ensures !DocumentedRetry(g, TEXT, OutcomeTargets(g, CHECK.id, TrueBranch), LOOP.id, BodySet(g, LOOP.id), guardNames,
            "err")
  {
    BackoffOps(ir, g);
    BackoffGraph(ir, g);
    SleepIsSkipped(g, BodySet(g, 1), guardNames);
    assert LOOP in ir.operations && ACCEPT in ir.operations && CHECK in ir.operations;
    SleepIsReported(g, ScopeOps(ir, {}, 9));
    assert DueInScope(TEXT, ir, {}, 9, Mark(1, 3, 4, true));
  }

  // ---------- testing the error again ----------

  // for { n, err := r.Read(b); if err != nil { log.Print(err); if err == io.EOF { eof = true }; continue } }

  const READ := LoopOp(3, Call, "r.Read", 2)
  const LOG := LoopOp(5, Call, "log.Print", NO_ID)
  const RETEST := LoopOp(6, Branch, "err == io.EOF", NO_ID)

  predicate IsRetest(ir: SemanticIR) {
    && ir.operations == [
         LOOP, LoopOp(2, Assign, "n, err", NO_ID), READ, CHECK, LOG, RETEST, LoopOp(7, Assign, "eof", NO_ID),
         LoopOp(8, Continue, "", NO_ID)]
    && ir.edges == [
         Edge(1, 2, EdgeKind.Body, ""), Edge(3, 2, EdgeKind.Next, ""), Edge(2, 4, EdgeKind.Next, ""),
         Edge(4, 5, EdgeKind.TrueBranch, ""), Edge(5, 6, EdgeKind.Next, ""), Edge(6, 7, EdgeKind.TrueBranch, ""),
         Edge(6, 8, EdgeKind.FalseBranch, ""), Edge(7, 8, EdgeKind.Next, ""), Edge(8, 1, EdgeKind.LoopBack, "")]
  }

  /** The readers on these operations: the second branch reads err, io and EOF; err, n and eof are assigned. */
  const RETEXT := RetryText(
    (op: Op) => op.kind.Loop?,
    (op: Op) => op.id == 3,
    (op: Op) => if op.id == 3 then ["err"] else [],
    (op: Op, names: seq<string>) => if op.id == 4 && names != [] then Some(("err", EdgeKind.TrueBranch)) else None,
    (op: Op) => if op.id == 2 then {"n", "err"} else {"eof"},
    (condition: string) => false,
    (condition: string) => {"err", "io", "EOF"},
    (call: string) => false,
    (call: string) => call == "log.Print")

  lemma RetestFlow(ir: SemanticIR)
    requires IsRetest(ir)
    ensures Numbered(ir.operations) && FlowsInside(ir.operations, ir.edges)
  {}

  lemma RetestOutcome(ir: SemanticIR)
    requires IsRetest(ir)
    ensures forall e :: e in ir.edges && e.source == 4 && e.kind.TrueBranch? ==> e.target == 5
  {}

  lemma RetestArcs(ir: SemanticIR, arcs: set<Arc>)
    requires IsRetest(ir) && forall e :: e in ir.edges ==> ArcOf(e) in arcs
    ensures Arc(1, 2, Body) in arcs && Arc(3, 2, Next) in arcs && Arc(2, 4, Next) in arcs
    ensures Arc(4, 5, TrueBranch) in arcs && Arc(5, 6, Next) in arcs && Arc(6, 8, FalseBranch) in arcs
    ensures Arc(8, 1, LoopBack) in arcs
  {
    var edges := ir.edges;
    assert edges[0] in edges && edges[1] in edges && edges[2] in edges && edges[3] in edges;
    assert edges[4] in edges && edges[6] in edges && edges[8] in edges;
  }

  lemma RetestBody(g: Graph)
    requires Arc(1, 2, Body) in g.arcs && Arc(3, 2, Next) in g.arcs && Arc(2, 4, Next) in g.arcs
    requires Arc(4, 5, TrueBranch) in g.arcs && Arc(5, 6, Next) in g.arcs && Arc(6, 8, FalseBranch) in g.arcs
    ensures InBody(g, 1, 3) && InBody(g, 1, 4) && InBody(g, 1, 5) && InBody(g, 1, 6) && InBody(g, 1, 8)
  {
    var r := BodyRel(g);
    assert (1, 2) in r && (2, 4) in r && (4, 5) in r && (5, 6) in r && (6, 8) in r && (3, 2) in Rel(g);
    assert WalkFromTo(r, [1, 2], 1, 2) && WalkFromTo(r, [1, 2, 4], 1, 4);
    assert WalkFromTo(r, [1, 2, 4, 5], 1, 5) && WalkFromTo(r, [1, 2, 4, 5, 6], 1, 6);
    assert WalkFromTo(r, [1, 2, 4, 5, 6, 8], 1, 8);
    assert InCore(g, 1, 2);
  }

  /** A graph with the operations and arcs of the program. */
  ghost predicate RetestShape(g: Graph) {
    && WellFormed(g) && (forall id: Id :: id in g.ops <==> 1 <= id <= 8)
    && g.ops[5] == LOG && g.ops[6] == RETEST && g.ops[8].kind.Continue?
    && OutcomeTargets(g, 4, TrueBranch) == {5} && Arc(5, 6, Next) in g.arcs && Arc(6, 8, FalseBranch) in g.arcs
    && Arc(8, 1, LoopBack) in g.arcs
    && InBody(g, 1, 3) && InBody(g, 1, 4) && InBody(g, 1, 5) && InBody(g, 1, 6) && InBody(g, 1, 8)
  }

  lemma RetestOps(ir: SemanticIR, g: Graph)
    requires IsRetest(ir) && g == GraphOfIr(ir, {})
    ensures UniqueIds(ir.operations) && LooksUp(g.ops, ir.operations) && ArcsUp(g.arcs, ir.edges)
  {
    RetestFlow(ir);
    NumberedGraph(ir, g);
    NumberedArcs(ir, g);
  }

  lemma RetestGraph(ir: SemanticIR, g: Graph)
    requires IsRetest(ir) && WellFormed(g) && LooksUp(g.ops, ir.operations) && ArcsUp(g.arcs, ir.edges)
    ensures RetestShape(g)
  {
    RetestOutcome(ir);
    RetestArcs(ir, g.arcs);
    OnlyTheSleep(g, ir.edges);
    RetestBody(g);
  }

  lemma RetestIsPassed(g: Graph, body: set<Id>, names: set<string>)
    requires RetestShape(g) && 5 in body && 6 in body && 8 in body && names <= {"n", "err", "eof"}
    ensures CodeRetry(g, RETEXT, {5}, 1, body, names, "err")
  {
    assert (5, 6) in LoopFreeRel(g) && (6, 8) in LoopFreeRel(g);
    RetestPasses(g, names);
    assert RetryWalk(g, RETEXT, {5}, 1, body, names, "err", [5, 6, 8]);
    RetriesMeansWalk(g, RETEXT, {5}, 1, body, names, "err");
  }

  lemma RetestPasses(g: Graph, names: set<string>)
    requires RetestShape(g) && names <= {"n", "err", "eof"}
    ensures Immediate(RETEXT, RETEST, names, "err") && Immediate(RETEXT, g.ops[8], names, "err")
  {
    assert "n"[0] != "i"[0] && "n"[0] != "E"[0] && "eof"[0] != "E"[0] && "eof"[1] != "err"[1] && "n"[0] != "e"[0];
    assert forall x :: x in {"err", "io", "EOF"} && x in names ==> x == "err";
    ImmediateMeaning(RETEXT, RETEST, names, "err");
    ImmediateMeaning(RETEXT, g.ops[8], names, "err");
  }

  lemma RetestIsMarked(g: Graph, operations: seq<Op>)
    requires RetestShape(g) && LOOP in operations && READ in operations && CHECK in operations
    ensures MarkedInScope(RETEXT, g, operations, Mark(1, 3, 4, true))
  {
    var body := BodySet(g, 1);
    var names := AssignedNames(RETEXT, operations, body);
    RetestIsPassed(g, body, names);
    assert BranchReports(RETEXT, g, LOOP, body, names, READ, CHECK);
    assert CHECK in BranchesOf(operations);
    assert MarkedForCall(RETEXT, g, LOOP, body, names, READ, BranchesOf(operations), Mark(1, 3, 4, true));
    assert Eligible(RETEXT, READ, body);
  }

  /** A branch on the error path that tests the error variable again does not mitigate, although the body
      assigns that variable: the retry is reported. */
  lemma RetestedErrorIsReported(ir: SemanticIR, g: Graph)
    requires IsRetest(ir) && g == GraphOfIr(ir, {})
    ensures UniqueIds(ir.operations) && Due(RETEXT, ir, {}, Mark(LOOP.id, READ.id, CHECK.id, true))
  {
    RetestOps(ir, g);
    RetestGraph(ir, g);
    assert LOOP in ir.operations && READ in ir.operations && CHECK in ir.operations;
    RetestIsMarked(g, ScopeOps(ir, {}, 9));
    assert DueInScope(RETEXT, ir, {}, 9, Mark(1, 3, 4, true));
  }
}
