/** Two candidates on one program: a supported protocol that does not match its own exemplar, and a
    resolved candidate on which the validator raises. */
module ReaderExamples {
  import opened Sequences
  import opened Walks
  import opened Ir
  import opened ControlFlow
  import opened TypeEvidence
  import opened Programs
  import opened ResourceLifecycle
  import opened ProjectReader
  import opened ReaderTheorems

  // r = <symbol>(); defer r.conn.Close()

  function OneOp(id: Id, kind: OpKind, target: string, host: Id, results: seq<string>, calls: seq<string>): Op {
    Op(id, kind, "go", 9, id, id, target, "", host, results, calls)
  }

  predicate IsOneCall(ir: SemanticIR, symbol: string) {
    && ir.operations == [
         OneOp(1, Call, symbol, 2, ["r"], []), OneOp(2, Assign, "r", NO_ID, [], [symbol]),
         OneOp(3, Defer, "r.conn.Close", NO_ID, [], [])]
    && ir.edges == [Edge(1, 2, EdgeKind.Next, ""), Edge(2, 3, EdgeKind.Next, "")]
  }

  /** The inventory facts of the call and of the cleanup. */
  const CALL_FACT := Fact(11, ResultCall, 1, true)
  const CLOSE_FACT := Fact(12, CleanupRegistration, 3, false)

  /** The readers on these operations: the DEFER closes the member conn of r. */
  const READERS := LifecycleText(
    (op: Op, binding: string) => if op.kind.Defer? then Some("conn") else None,
    (op: Op) => if op.kind.Defer? then "Close" else "Open",
    (symbol: string) => "Open",
    (symbol: string) => true,
    (op: Op, binding: string, memberPath: string) => false,
    (op: Op) => {},
    (name: string) => name)

  function CandidateFor(mode: MatchMode): Candidate {
    Candidate(1, 1, "", 0, ["Close"], mode, "conn", "", "", [], [])
  }

  lemma OneCallFlow(ir: SemanticIR, symbol: string)
    requires IsOneCall(ir, symbol)
    ensures Numbered(ir.operations) && FlowsInside(ir.operations, ir.edges)
  {}

  lemma OneCallReach(ir: SemanticIR, symbol: string, r: Relation)
    requires IsOneCall(ir, symbol) && forall e :: e in ir.edges ==> (e.source, e.target) in r
    ensures Reach(r, 1, 3)
  {
    assert ir.edges[0] in ir.edges && ir.edges[1] in ir.edges;
    assert WalkFromTo(r, [1, 2, 3], 1, 3);
  }

  lemma OneCallGraph(ir: SemanticIR, symbol: string, g: Graph)
    requires IsOneCall(ir, symbol) && g == GraphOfIr(ir, {})
    ensures UniqueIds(ir.operations) && LooksUp(g.ops, ir.operations) && Reach(Rel(g), 1, 3)
  {
    OneCallFlow(ir, symbol);
    NumberedGraph(ir, g);
    OneCallReach(ir, symbol, Rel(g));
  }

  lemma CloseMatches(ir: SemanticIR, symbol: string, g: Graph, facts: seq<Fact>)
    requires IsOneCall(ir, symbol) && LooksUp(g.ops, ir.operations) && Reach(Rel(g), 1, 3)
    requires facts == [CALL_FACT, CLOSE_FACT]
    ensures CleanupMatches(READERS, g, g.ops[1], "r", "conn", "Close", facts) == [CLOSE_FACT]
  {
    assert g.ops[3] == ir.operations[2] && g.ops[1] == ir.operations[0];
    assert MatchesCleanup(READERS, g, g.ops[1], "r", "conn", "Close", CLOSE_FACT);
    assert !MatchesCleanup(READERS, g, g.ops[1], "r", "conn", "Close", CALL_FACT);
    assert facts[..1] == [CALL_FACT] && facts[..1][..0] == [];
    assert CleanupMatches(READERS, g, g.ops[1], "r", "conn", "Close", facts[..1]) == [];
  }

  lemma OneCallIsPrimary(ir: SemanticIR, symbol: string, g: Graph, c: Candidate)
    requires IsOneCall(ir, symbol) && LooksUp(g.ops, ir.operations) && c.operation == 1 && c.resultIndex == 0
    ensures OperationProblem(g.ops, c).None? && g.ops[1].target == symbol && g.ops[1].resultTargets == ["r"]
  {
    assert g.ops[1] == ir.operations[0] && g.ops[2] == ir.operations[1];
    assert UsableBinding("r");
  }

  lemma OnePrimaryFact(c: Candidate, facts: seq<Fact>)
    requires facts == [CALL_FACT, CLOSE_FACT] && c.operation == 1
    ensures PrimaryFacts(c, facts) == [CALL_FACT]
  {
    FilterTwo((f: Fact) => f.role.ResultCall? && f.operation == c.operation && f.primary, facts);
  }

  lemma BindsOne(t: LifecycleText, g: Graph, op: Op, binding: string, path: string, methods: seq<string>,
          facts: seq<Fact>)
    requires |methods| == 1 && |CleanupMatches(t, g, op, binding, path, methods[0], facts)| == 1
    ensures Dedupe(methods) == methods && BindCleanups(t, g, op, binding, path, methods, facts).Bound?
  {
    var before := methods[..0];
    assert before == [] && Dedupe(before) == [];
    assert BindCleanups(t, g, op, binding, path, before, facts) == Bound([]);
  }

  lemma OneCallResolves(ir: SemanticIR, symbol: string, g: Graph, index: Index, mode: MatchMode, facts: seq<Fact>)
    requires IsOneCall(ir, symbol) && LooksUp(g.ops, ir.operations) && Reach(Rel(g), 1, 3)
    requires facts == [CALL_FACT, CLOSE_FACT] && !mode.TypedMethod?
    ensures ResolutionOf(READERS, index, g, facts, CandidateFor(mode)).Resolved? && g.ops[1].target == symbol
  {
    OneCallIsPrimary(ir, symbol, g, CandidateFor(mode));
    OnePrimaryFact(CandidateFor(mode), facts);
    CloseMatches(ir, symbol, g, facts);
    BindsOne(READERS, g, g.ops[1], "r", "conn", ["Close"], facts);
  }

  lemma CandidateAgrees(mode: MatchMode)
    requires !mode.TypedMethod?
    ensures FieldsAgree(CandidateFor(mode))
  {
    assert IsIdentifier("Close") && IsIdentifier("conn");
  }

  /** The whole input: the program, its two facts, the readers and a candidate. */
  ghost predicate IsInput(ir: SemanticIR, symbol: string, facts: seq<Fact>, t: LifecycleText, mode: MatchMode,
          c: Candidate) {
    IsOneCall(ir, symbol) && facts == [CALL_FACT, CLOSE_FACT] && t == READERS && c == CandidateFor(mode)
  }

  lemma InputResolves(
        ir: SemanticIR, symbol: string, facts: seq<Fact>, t: LifecycleText, mode: MatchMode, c: Candidate, index: Index)
    requires IsInput(ir, symbol, facts, t, mode, c) && !mode.TypedMethod?
    ensures UniqueIds(ir.operations) && ContentAddressed(facts) && FieldsAgree(c) && c.mode == mode && c.operation == 1
    ensures ResolutionOf(t, index, GraphOfIr(ir, {}), facts, c).Resolved?
    ensures GraphOfIr(ir, {}).ops[1].target == symbol
  {
    OneCallGraph(ir, symbol, GraphOfIr(ir, {}));
    OneCallResolves(ir, symbol, GraphOfIr(ir, {}), index, mode, facts);
    CandidateAgrees(mode);
  }

  /** A parsed exact-mode candidate for a call without a symbol resolves, and the validator's
      protocol constructor raises on it. */
  lemma BlankSymbolRaises(ir: SemanticIR, facts: seq<Fact>, t: LifecycleText, c: Candidate)
    requires IsInput(ir, "", facts, t, ExactMode, c)
    ensures var g := GraphOfIr(ir, {});
            && UniqueIds(ir.operations) && ContentAddressed(facts) && FieldsAgree(c)
            && ResolutionOf(t, [], g, facts, c).Resolved?
            && DecisionOf(t, [], g, FactsById(facts), ResolutionOf(t, [], g, facts, c).candidate).Raised?
  {
    InputResolves(ir, "", facts, t, ExactMode, c, []);
    ExactResolvedIsSupported(t, [], GraphOfIr(ir, {}), facts, c);
  }

  /** Two receiver types for the call: evidence, but not unique evidence. */
  predicate IsTwoTypes(index: Index) {
    index == [Evidence(1, 1, Receiver, "A", ""), Evidence(2, 1, Receiver, "B", "")]
  }

  lemma TwoTypesAreAmbiguous(index: Index)
    requires IsTwoTypes(index)
    ensures !HasUniqueReceiver(index, 1) && ForOperation(index, 1, Receiver) != []
  {
    var items := ForOperation(index, 1, Receiver);
    assert index[0] in index && index[1] in index && index[0] in items && index[1] in items;
    assert "A" in TypesOf(index, 1, Receiver) && "B" in TypesOf(index, 1, Receiver);
  }

  lemma NotBlank(s: string)
    requires s != "" && !IsSpace(s[0])
    ensures !Blank(s)
  {}

  /** A parsed method-shape candidate that resolves and is supported, whose own exemplar is not an
      acquisition of the protocol: the validator asks for unique evidence before it refuses the
      shape, the analyzer for any. */
  lemma AmbiguousEvidenceBlocksShape(ir: SemanticIR, index: Index, facts: seq<Fact>, t: LifecycleText, c: Candidate)
    requires IsInput(ir, "p.Open", facts, t, MethodShape, c) && IsTwoTypes(index)
    ensures UniqueIds(ir.operations) && ContentAddressed(facts) && FieldsAgree(c)
    ensures ResolutionOf(t, index, GraphOfIr(ir, {}), facts, c).Resolved?
    ensures SupportedButUnmatched(t, index, ir, facts, c)
  {
    InputResolves(ir, "p.Open", facts, t, MethodShape, c, index);
    TwoTypesAreAmbiguous(index);
    NotBlank("p.Open");
    ShapeIsUnmatchedIff(t, index, ir, facts, c);
  }
}
