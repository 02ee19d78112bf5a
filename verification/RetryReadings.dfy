/** Two readings of "without passing a mitigation" (smartbench/analysis/retry_loops.py): the analyzer
    classifies every operation on the error path but the first, its documentation every one. */
module RetryReadings {
  import opened Sequences
  import opened Walks
  import opened Ir
  import opened ControlFlow
  import opened RetryLoops

  /** The documented reading: no operation on the walk back mitigates or blocks. */
  ghost predicate DocumentedRetry(
        g: Graph, t: RetryText, starts: set<Id>, loop: Id, body: set<Id>, guardNames: set<string>,
        errorVariable: string) {
    exists w :: RetryWalk(g, t, starts, loop, body, guardNames, errorVariable, w) &&
                Immediate(t, g.ops[w[0]], guardNames, errorVariable)
  }

  /** What the analyzer decides. */
  ghost predicate CodeRetry(
        g: Graph, t: RetryText, starts: set<Id>, loop: Id, body: set<Id>, guardNames: set<string>,
        errorVariable: string) {
    Retries(g, RetryRel(g, t, body, guardNames, errorVariable), starts, loop, body)
  }

  ghost function ImmediateOf(
        g: Graph, t: RetryText, starts: set<Id>, guardNames: set<string>, errorVariable: string): set<Id> {
    set s | s in starts && s in g.ops && Immediate(t, g.ops[s], guardNames, errorVariable)
  }

  /** The documented reading is what the analyzer decides from the immediate starts alone. */
  lemma DocumentedIsFromImmediateStarts(
        g: Graph, t: RetryText, starts: set<Id>, loop: Id, body: set<Id>, guardNames: set<string>,
        errorVariable: string)
    requires WellFormed(g)
    ensures DocumentedRetry(g, t, starts, loop, body, guardNames, errorVariable) <==>
            CodeRetry(g, t, ImmediateOf(g, t, starts, guardNames, errorVariable), loop, body, guardNames, errorVariable)
  {
    var some := ImmediateOf(g, t, starts, guardNames, errorVariable);
    RetriesMeansWalk(g, t, some, loop, body, guardNames, errorVariable);
    if w :| RetryWalk(g, t, starts, loop, body, guardNames, errorVariable, w) &&
            Immediate(t, g.ops[w[0]], guardNames, errorVariable) {
      assert RetryWalk(g, t, some, loop, body, guardNames, errorVariable, w);
    }
    if w :| RetryWalk(g, t, some, loop, body, guardNames, errorVariable, w) {
      assert RetryWalk(g, t, starts, loop, body, guardNames, errorVariable, w);
    }
  }

  /** The readings agree where every start inside the body is immediate. */
  lemma ImmediateStartsAgree(
        g: Graph, t: RetryText, starts: set<Id>, loop: Id, body: set<Id>, guardNames: set<string>,
        errorVariable: string)
    requires WellFormed(g)
    requires forall s :: s in starts && s in body && s in g.ops ==> Immediate(t, g.ops[s], guardNames, errorVariable)
    ensures CodeRetry(g, t, starts, loop, body, guardNames, errorVariable) <==>
            DocumentedRetry(g, t, starts, loop, body, guardNames, errorVariable)
  {
    RetriesMeansWalk(g, t, starts, loop, body, guardNames, errorVariable);
    if w :| RetryWalk(g, t, starts, loop, body, guardNames, errorVariable, w) {
      assert w[0] in starts && w[0] in body && w[0] in g.ops;
    }
    if w :| RetryWalk(g, t, starts, loop, body, guardNames, errorVariable, w) &&
            Immediate(t, g.ops[w[0]], guardNames, errorVariable) {
      assert RetryWalk(g, t, starts, loop, body, guardNames, errorVariable, w);
    }
  }

  /** From a single start that is not immediate, the documented reading never reports, so the
      readings agree exactly when the analyzer does not report either. */
  lemma LoneStart(
        g: Graph, t: RetryText, s: Id, loop: Id, body: set<Id>, guardNames: set<string>, errorVariable: string)
    requires WellFormed(g) && s in g.ops
    ensures (CodeRetry(g, t, {s}, loop, body, guardNames, errorVariable) <==>
             DocumentedRetry(g, t, {s}, loop, body, guardNames, errorVariable))
            <==>
            (Immediate(t, g.ops[s], guardNames, errorVariable) ||
             !CodeRetry(g, t, {s}, loop, body, guardNames, errorVariable))
  {
    if Immediate(t, g.ops[s], guardNames, errorVariable) {
      ImmediateStartsAgree(g, t, {s}, loop, body, guardNames, errorVariable);
    }
  }

  /** The operations are those of the graph, the start among them. */
  ghost predicate Contains(g: Graph, operations: seq<Op>, start: Op) {
    && WellFormed(g) && start in operations
    && forall op :: op in operations ==> op.id in g.ops && g.ops[op.id] == op
  }

  /** The readings agree from the operation, on the body and the assigned names the analyzer computes. */
  ghost predicate AgreeOn(g: Graph, operations: seq<Op>, t: RetryText, start: Op, loop: Id, errorVariable: string) {
    var body := BodySet(g, loop);
    var names := AssignedNames(t, operations, body);
    CodeRetry(g, t, {start.id}, loop, body, names, errorVariable) <==>
    DocumentedRetry(g, t, {start.id}, loop, body, names, errorVariable)
  }

  /** The names some assignments assign. */
  function NamesOf(t: RetryText, assigns: seq<Op>): set<string> {
    set op, name | op in assigns && name in t.assignedBy(op) :: name
  }

  ghost predicate AssignBeside(start: Op, assigns: seq<Op>) {
    && UniqueIds([start] + assigns)
    && forall op :: op in assigns ==> (op.kind.Assign? || op.kind.Update?) && op.scope == start.scope
  }

  /** The exact condition on the operation an error branch leads to, for the names that any given
      assignments assign: the readings agree for every loop of every program that contains it and whose
      body assigns these names, if and only if it is immediate itself. */
  lemma AgreeInEveryProgramIff(t: RetryText, start: Op, assigns: seq<Op>, errorVariable: string)
    requires AssignBeside(start, assigns)
    ensures (forall g, operations, loop ::
               Contains(g, operations, start) &&
               AssignedNames(t, operations, BodySet(g, loop)) == NamesOf(t, assigns) ==>
               AgreeOn(g, operations, t, start, loop, errorVariable))
            <==> Immediate(t, start, NamesOf(t, assigns), errorVariable)
  {
    var names := NamesOf(t, assigns);
    forall g, operations, loop | Contains(g, operations, start) &&
      AssignedNames(t, operations, BodySet(g, loop)) == names
      ensures Immediate(t, start, names, errorVariable) ==> AgreeOn(g, operations, t, start, loop, errorVariable)
    {
      LoneStart(g, t, start.id, loop, BodySet(g, loop), names, errorVariable);
    }
    if !Immediate(t, start, names, errorVariable) {
      var g, operations, loop := StraightBack(t, start, assigns, errorVariable);
      assert !AgreeOn(g, operations, t, start, loop, errorVariable);
    }
  }

  ghost function FreshId(ops: seq<Op>): (n: Id)
    ensures forall op :: op in ops ==> op.id < n
  {
    if ops == [] then 0 else ops[0].id + 1 + FreshId(ops[1..])
  }

  /** The loop whose body holds the operation, which goes straight back, and the assignments. */
  ghost function BackGraph(operations: seq<Op>, start: Id, assigns: seq<Op>, loop: Id): Graph {
    Graph(OpsById(operations),
          {Arc(loop, start, Body), Arc(start, loop, LoopBack)} + set op | op in assigns :: Arc(loop, op.id, Body))
  }

  lemma FreshIsUnique(op: Op, ops: seq<Op>)
    requires UniqueIds(ops) && forall o :: o in ops ==> o.id < op.id
    ensures UniqueIds([op] + ops)
  {
    var all := [op] + ops;
    assert forall k :: 0 < k < |all| ==> all[k] == ops[k - 1] && all[k] in ops;
  }

  lemma BackGraphContains(operations: seq<Op>, start: Op, assigns: seq<Op>, loop: Op)
    requires UniqueIds(operations) && start in operations && loop in operations && loop.scope == start.scope
    requires forall op :: op in assigns ==> op in operations && op.scope == start.scope
    ensures Contains(BackGraph(operations, start.id, assigns, loop.id), operations, start)
  {
    forall op | op in operations ensures op.id in OpsById(operations) && OpsById(operations)[op.id] == op {
      UniqueLookup(operations, op);
    }
  }

  lemma BackGraphBody(g: Graph, operations: seq<Op>, start: Id, assigns: seq<Op>, loop: Id)
    requires g == BackGraph(operations, start, assigns, loop) && WellFormed(g)
    ensures start in BodySet(g, loop) && forall op :: op in assigns ==> op.id in BodySet(g, loop)
    ensures LoopsBack(g, start, loop)
  {
    assert Arc(start, loop, LoopBack) in g.arcs;
    InBodyByArc(g, loop, start);
    forall op | op in assigns ensures op.id in BodySet(g, loop) {
      InBodyByArc(g, loop, op.id);
    }
  }

  lemma InBodyByArc(g: Graph, loop: Id, n: Id)
    requires WellFormed(g) && Arc(loop, n, Body) in g.arcs
    ensures n in BodySet(g, loop)
  {
    assert (loop, n) in BodyRel(g);
    StepIsReach(BodyRel(g), loop, n);
  }

  /** Only the assignments assign names. */
  lemma BodyNames(t: RetryText, operations: seq<Op>, assigns: seq<Op>, body: set<Id>)
    requires forall op :: op in assigns ==> op in operations && op.id in body && (op.kind.Assign? || op.kind.Update?)
    requires forall op :: op in operations && (op.kind.Assign? || op.kind.Update?) ==> op in assigns
    ensures AssignedNames(t, operations, body) == NamesOf(t, assigns)
  {}

  /** An operation that is not immediate retries straight back in the code's reading alone. */
  lemma BackIsMisread(
        g: Graph, t: RetryText, operations: seq<Op>, start: Op, loop: Id, names: set<string>, errorVariable: string)
    requires Contains(g, operations, start) && AssignedNames(t, operations, BodySet(g, loop)) == names
    requires start.id in BodySet(g, loop) && LoopsBack(g, start.id, loop)
    requires !Immediate(t, start, names, errorVariable)
    ensures !AgreeOn(g, operations, t, start, loop, errorVariable)
  {
    var body := BodySet(g, loop);
    assert RetriesAt(g, RetryRel(g, t, body, names, errorVariable), {start.id}, loop, body, start.id);
    LoneStart(g, t, start.id, loop, body, names, errorVariable);
  }

  lemma BackOperations(start: Op, assigns: seq<Op>) returns (operations: seq<Op>, head: Op)
    requires AssignBeside(start, assigns)
    ensures UniqueIds(operations) && start in operations && head in operations && head.scope == start.scope
    ensures head.kind.Loop? && forall op :: op in operations <==> op == head || op == start || op in assigns
  {
    head := start.(id := FreshId([start] + assigns), kind := Loop);
    FreshIsUnique(head, [start] + assigns);
    operations := [head] + ([start] + assigns);
  }

  lemma BackProgram(start: Op, assigns: seq<Op>) returns (g: Graph, operations: seq<Op>, loop: Id)
    requires AssignBeside(start, assigns)
    ensures Contains(g, operations, start) && start.id in BodySet(g, loop) && LoopsBack(g, start.id, loop)
    ensures forall op :: op in assigns ==> op in operations && op.id in BodySet(g, loop)
    ensures forall op :: op in operations ==> op.kind.Loop? || op == start || op in assigns
  {
    var head;
    operations, head := BackOperations(start, assigns);
    loop := head.id;
    g := BackGraph(operations, start.id, assigns, loop);
    BackGraphContains(operations, start, assigns, head);
    BackGraphBody(g, operations, start.id, assigns, loop);
  }

  lemma StraightBack(t: RetryText, start: Op, assigns: seq<Op>, errorVariable: string)
    returns (g: Graph, operations: seq<Op>, loop: Id)
    requires AssignBeside(start, assigns) && !Immediate(t, start, NamesOf(t, assigns), errorVariable)
    ensures Contains(g, operations, start)
    ensures AssignedNames(t, operations, BodySet(g, loop)) == NamesOf(t, assigns)
    ensures !AgreeOn(g, operations, t, start, loop, errorVariable)
  {
    g, operations, loop := BackProgram(start, assigns);
    BodyNames(t, operations, assigns, BodySet(g, loop));
    BackIsMisread(g, t, operations, start, loop, NamesOf(t, assigns), errorVariable);
  }

  // ---------- what ends a retry ----------

  /** Spelled out: a branch is passed when it bounds nothing, that is, names no limit and reads no assigned
      name but the error variable; a call or spawn when it does not pause, and calls, spawns, sends and emits
      when they only record. */
  lemma ImmediateMeaning(t: RetryText, op: Op, names: set<string>, errorVariable: string)
    ensures Immediate(t, op, names, errorVariable) <==>
            && (op.kind == Branch ==>
                  !t.limitGuard(op.value) && forall x :: x in t.identifiers(op.value) && x in names ==>
                    x == errorVariable)
            && (op.kind == Call || op.kind == Spawn ==> !t.mitigationCall(TextOf(op)))
            && (op.kind in {Call, Spawn, Send, Emit} ==> t.passthrough(TextOf(op)))
  {
    var read := (t.identifiers(op.value) * names) - {errorVariable};
    assert read == {} <==> forall x :: x in t.identifiers(op.value) && x in names ==> x == errorVariable by {
      if read == {} {
        forall x | x in t.identifiers(op.value) && x in names ensures x == errorVariable { assert x !in read; }
      }
    }
  }

  /** Whether the error variable itself is assigned in the body changes nothing. */
  lemma ErrorVariableIsIgnored(
        g: Graph, t: RetryText, loop: Op, body: set<Id>, names: set<string>, others: set<string>, call: Op, branch: Op,
        reported: bool)
    requires forall e, x :: t.errorOutcome(branch, t.resultNames(call)) == Some(e) && x != e.0 ==>
             (x in names <==> x in others)
    ensures MarkedBranch(t, g, loop, body, names, call, branch, reported) <==>
            MarkedBranch(t, g, loop, body, others, call, branch, reported)
  {
    var outcome := t.errorOutcome(branch, t.resultNames(call));
    if outcome.Some? {
      forall op ensures Immediate(t, op, names, outcome.value.0) <==> Immediate(t, op, others, outcome.value.0) {
        ImmediateMeaning(t, op, names, outcome.value.0);
        ImmediateMeaning(t, op, others, outcome.value.0);
      }
      SameImmediate(g, t, body, names, others, outcome.value.0);
    }
  }

  lemma SameImmediate(g: Graph, t: RetryText, body: set<Id>, names: set<string>, others: set<string>,
          errorVariable: string)
    requires forall op :: Immediate(t, op, names, errorVariable) <==> Immediate(t, op, others, errorVariable)
    ensures RetryRel(g, t, body, names, errorVariable) == RetryRel(g, t, body, others, errorVariable)
  {
    forall a | a in g.arcs && a.target in g.ops
      ensures Immediate(t, g.ops[a.target], names, errorVariable) <==>
              Immediate(t, g.ops[a.target], others, errorVariable)
    {}
  }

  /** A branch that reads any other assigned name ends every retry through it, and so does a limit, a pause,
      and any call, spawn, send or emit that does more than record. */
  lemma OtherNameEndsRetry(
        g: Graph, t: RetryText, starts: set<Id>, loop: Id, body: set<Id>, names: set<string>, errorVariable: string,
        w: seq<Id>, i: nat, x: string)
    requires RetryWalk(g, t, starts, loop, body, names, errorVariable, w) && 1 <= i < |w|
    requires x in t.identifiers(g.ops[w[i]].value) && x in names && x != errorVariable
    ensures !g.ops[w[i]].kind.Branch?
  {
    assert Immediate(t, g.ops[w[i]], names, errorVariable);
    ImmediateMeaning(t, g.ops[w[i]], names, errorVariable);
  }
}
