/** Resolver and validator in terms of the program, the inventory and the type evidence alone. */
module ReaderReport {
  import opened Sequences
  import opened Walks
  import opened Ir
  import opened ControlFlow
  import opened Reading
  import opened TypeEvidence
  import opened ResourceLifecycle
  import opened ProjectReader
  import opened ReaderTheorems
  import opened LifecycleReport

  // ---------- facts ----------

  /** Exactly one place is marked. */
  ghost predicate OneMark(marks: seq<bool>) {
    exists i :: 0 <= i < |marks| && marks[i] && forall j :: 0 <= j < |marks| && marks[j] ==> j == i
  }

  lemma {:induction false} NoMark(marks: seq<bool>)
    ensures CountTrue(marks) == 0 <==> forall j :: 0 <= j < |marks| ==> !marks[j]
  {
    if marks != [] {
      NoMark(marks[1..]);
      assert forall j :: 0 < j < |marks| ==> marks[j] == marks[1..][j - 1];
    }
  }

  lemma {:induction false} OneMarkCounts(marks: seq<bool>)
    ensures CountTrue(marks) == 1 <==> OneMark(marks)
  {
    if marks != [] {
      var rest := marks[1..];
      OneMarkCounts(rest);
      NoMark(rest);
      assert forall j :: 0 <= j < |rest| ==> rest[j] == marks[j + 1];
      if marks[0] {
        FirstMarked(marks, rest);
      } else {
        LaterMarked(marks, rest);
      }
    }
  }

  lemma FirstMarked(marks: seq<bool>, rest: seq<bool>)
    requires marks == [true] + rest
    ensures OneMark(marks) <==> forall j :: 0 <= j < |rest| ==> !rest[j]
  {
    if OneMark(marks) {
      forall j | 0 <= j < |rest| ensures !rest[j] {
        assert rest[j] == marks[j + 1];
      }
    }
    assert forall j :: 0 < j < |marks| ==> marks[j] == rest[j - 1];
    assert marks[0];
  }

  lemma LaterMarked(marks: seq<bool>, rest: seq<bool>)
    requires marks == [false] + rest
    ensures OneMark(marks) <==> OneMark(rest)
  {
    assert forall j :: 0 < j < |marks| ==> marks[j] == rest[j - 1];
    assert forall j :: 0 <= j < |rest| ==> rest[j] == marks[j + 1];
    if OneMark(marks) {
      var i :| 0 <= i < |marks| && marks[i] && forall j :: 0 <= j < |marks| && marks[j] ==> j == i;
      assert rest[i - 1];
    }
    if OneMark(rest) {
      var i :| 0 <= i < |rest| && rest[i] && forall j :: 0 <= j < |rest| && rest[j] ==> j == i;
      assert marks[i + 1];
    }
  }

  lemma {:induction false} CountOneMore(marks: seq<bool>, mark: bool)
    ensures CountTrue(marks + [mark]) == CountTrue(marks) + (if mark then 1 else 0)
  {
    if marks == [] {
      assert marks + [mark] == [mark] && [mark][1..] == [];
    } else {
      assert (marks + [mark])[1..] == marks[1..] + [mark];
      CountOneMore(marks[1..], mark);
    }
  }

  lemma {:induction false} FilterCounts(f: Fact -> bool, facts: seq<Fact>, marks: seq<bool>)
    requires |marks| == |facts| && forall i :: 0 <= i < |facts| ==> marks[i] == f(facts[i])
    ensures |Filter(f, facts)| == CountTrue(marks)
  {
    if facts != [] { FilterCounts(f, facts[1..], marks[1..]); }
  }

  lemma {:induction false} MatchesCount(
        t: LifecycleText, g: Graph, op: Op, binding: string, path: string, m: string, facts: seq<Fact>,
        marks: seq<bool>)
    requires |marks| == |facts|
    requires forall i :: 0 <= i < |facts| ==> marks[i] == MatchesCleanup(t, g, op, binding, path, m, facts[i])
    ensures |CleanupMatches(t, g, op, binding, path, m, facts)| == CountTrue(marks)
    decreases |facts|
  {
    if facts != [] {
      var n := |facts| - 1;
      MatchesCount(t, g, op, binding, path, m, facts[..n], marks[..n]);
      CountOneMore(marks[..n], marks[n]);
      assert marks[..n] + [marks[n]] == marks;
    }
  }

  /** The fact states a primary result call. */
  predicate StatesCall(operation: Id, f: Fact) {
    f.role == ResultCall && f.operation == operation && f.primary
  }

  /** The fact states that an operation of the call's scope, reached from the call, registers m on the binding. */
  ghost predicate StatesCleanup(
        t: LifecycleText, ir: SemanticIR, call: Op, binding: string, path: string, m: string, f: Fact) {
    f.role == CleanupRegistration &&
    exists c :: c in ir.operations && RegistersAt(t, ir, call, binding, path, m, f, c)
  }

  ghost predicate RegistersAt(
        t: LifecycleText, ir: SemanticIR, call: Op, binding: string, path: string, m: string, f: Fact, c: Op) {
    && c.id == f.operation && c.kind == Defer && c.scope == call.scope
    && Leads(ir, {}, Flows, call.id, c.id) && t.memberPath(c, binding) == Some(path) && t.methodName(c) == m
  }

  lemma CleanupRead(
        t: LifecycleText, ir: SemanticIR, call: Op, binding: string, path: string, m: string, f: Fact)
    requires UniqueIds(ir.operations)
    ensures MatchesCleanup(t, GraphOfIr(ir, {}), call, binding, path, m, f) <==>
            StatesCleanup(t, ir, call, binding, path, m, f)
  {
    var ops := GraphOfIr(ir, {}).ops;
    ReachRead(ir, call.id, f.operation);
    if f.operation in ops { GraphOperation(ir, {}, f.operation); }
    if c :| c in ir.operations && RegistersAt(t, ir, call, binding, path, m, f, c) { KeptOperation(ir, {}, c); }
  }

  /** Which places of the inventory state the call, and the cleanup. */
  ghost function CallMarks(operation: Id, facts: seq<Fact>): seq<bool> {
    seq(|facts|, i requires 0 <= i < |facts| => StatesCall(operation, facts[i]))
  }

  ghost function CleanupMarks(
        t: LifecycleText, ir: SemanticIR, call: Op, binding: string, path: string, m: string,
        facts: seq<Fact>): seq<bool> {
    seq(|facts|, i requires 0 <= i < |facts| => StatesCleanup(t, ir, call, binding, path, m, facts[i]))
  }

  lemma OneMatchIsOneMark(
        t: LifecycleText, ir: SemanticIR, g: Graph, op: Op, binding: string, path: string, m: string, facts: seq<Fact>)
    requires UniqueIds(ir.operations) && g == GraphOfIr(ir, {})
    ensures |CleanupMatches(t, g, op, binding, path, m, facts)| == 1 <==>
            OneMark(CleanupMarks(t, ir, op, binding, path, m, facts))
  {
    var marks := CleanupMarks(t, ir, op, binding, path, m, facts);
    forall i | 0 <= i < |facts| ensures marks[i] == MatchesCleanup(t, g, op, binding, path, m, facts[i]) {
      CleanupRead(t, ir, op, binding, path, m, facts[i]);
    }
    MatchesCount(t, g, op, binding, path, m, facts, marks);
    OneMarkCounts(marks);
  }

  /** All methods bind exactly when each has one match. */
  lemma {:induction false} BoundIff(
        t: LifecycleText, g: Graph, op: Op, binding: string, path: string, methods: seq<string>, facts: seq<Fact>)
    ensures BindCleanups(t, g, op, binding, path, methods, facts).Bound? <==>
            forall m :: m in methods ==> |CleanupMatches(t, g, op, binding, path, m, facts)| == 1
    decreases |methods|
  {
    if methods != [] {
      SplitLast(methods);
      var rest := methods[..|methods| - 1];
      BoundIff(t, g, op, binding, path, rest, facts);
      if m :| m in rest && |CleanupMatches(t, g, op, binding, path, m, facts)| != 1 { assert m in methods; }
      assert methods[|methods| - 1] in methods;
    }
  }

  // ---------- the call ----------

  /** The selected operation is a call, the first of the assignment that takes its results, and the selected
      result is bound to a name that can be used. */
  ghost predicate Selects(ir: SemanticIR, c: Candidate, op: Op) {
    && op in ir.operations && op.id == c.operation && op.kind == Call
    && TakenByAssignment(ir, op) && c.resultIndex < |op.resultTargets|
    && op.resultTargets[c.resultIndex] != "" && op.resultTargets[c.resultIndex] != "_"
  }

  lemma SelectionRead(ir: SemanticIR, c: Candidate, op: Op)
    requires UniqueIds(ir.operations)
    ensures Selects(ir, c, op) <==>
            && OperationProblem(GraphOfIr(ir, {}).ops, c).None?
            && op == GraphOfIr(ir, {}).ops[c.operation]
  {
    var ops := GraphOfIr(ir, {}).ops;
    HostRead(ir, op);
    if Selects(ir, c, op) {
      KeptOperation(ir, {}, op);
      assert IsPrimaryResultCall(ops, op);
      assert OperationProblem(ops, c).None?;
    }
    if OperationProblem(ops, c).None? && op == ops[c.operation] {
      GraphOperation(ir, {}, c.operation);
      assert IsPrimaryResultCall(ops, op);
    }
  }

  lemma HostRead(ir: SemanticIR, op: Op)
    requires UniqueIds(ir.operations)
    ensures var ops := GraphOfIr(ir, {}).ops;
            && op.host in ops && ops[op.host].kind.Assign?
            && ops[op.host].calls != [] && ops[op.host].calls[0] == op.target
            <==> TakenByAssignment(ir, op)
  {
    var ops := GraphOfIr(ir, {}).ops;
    if h :| h in ir.operations && h.id == op.host && h.kind == Assign && h.calls != [] && h.calls[0] == op.target {
      KeptOperation(ir, {}, h);
    }
    if op.host in ops { GraphOperation(ir, {}, op.host); }
  }

  /** One type and one symbol are stated for the receiver. */
  ghost predicate KnownReceiver(index: Index, op: Id) {
    && (exists name :: StatesType(index, op, name) && forall other :: StatesType(index, op, other) ==> other == name)
    && (exists symbol ::
          StatesSymbol(index, op, symbol) && forall other :: StatesSymbol(index, op, other) ==> other == symbol)
  }

  lemma ReceiverRead(index: Index, op: Id)
    ensures HasUniqueReceiver(index, op) <==> KnownReceiver(index, op)
  {
    var name, symbols := UniqueType(index, op, Receiver), CanonicalSymbols(index, op);
    UniqueTypeIsOneType(index, op, name);
    forall x ensures x in symbols <==> StatesSymbol(index, op, x) {
      SymbolIsStated(index, op, x);
    }
    if |symbols| == 1 {
      SingletonSet(symbols);
      var x :| symbols == {x};
      assert StatesSymbol(index, op, x);
    }
    if KnownReceiver(index, op) { KnownIsUnique(index, op); }
  }

  lemma KnownIsUnique(index: Index, op: Id)
    requires KnownReceiver(index, op)
    ensures HasUniqueReceiver(index, op)
  {
    var symbols := CanonicalSymbols(index, op);
    forall x ensures x in symbols <==> StatesSymbol(index, op, x) {
      SymbolIsStated(index, op, x);
    }
    var n :| StatesType(index, op, n) && forall other :: StatesType(index, op, other) ==> other == n;
    UniqueTypeIsOneType(index, op, n);
    var x :| StatesSymbol(index, op, x) && forall other :: StatesSymbol(index, op, other) ==> other == x;
    assert symbols == {x};
    StatedIsEvidence(index, op, n);
  }

  lemma StatedIsEvidence(index: Index, op: Id, name: string)
    requires StatesType(index, op, name)
    ensures EvidenceIds(index, op, Receiver) != []
  {
    var e :| e in index && e.operation == op && e.role == Receiver && e.normalizedType == name && name != "";
    assert e in ForOperation(index, op, Receiver);
  }

  // ---------- the resolver ----------

  /** The inventory pins the hypothesis down: one primary fact, one cleanup fact for each method, and in typed
      mode a known receiver. */
  ghost predicate Pinned(t: LifecycleText, index: Index, ir: SemanticIR, facts: seq<Fact>, c: Candidate, op: Op)
    requires c.resultIndex < |op.resultTargets|
  {
    && OneMark(CallMarks(op.id, facts))
    && (forall m :: m in c.cleanupMethods ==>
          OneMark(CleanupMarks(t, ir, op, op.resultTargets[c.resultIndex], c.memberPath, m, facts)))
    && (c.mode == TypedMethod ==> KnownReceiver(index, op.id))
  }

  /** A hypothesis resolves exactly when it selects a call that the inventory pins down. */
  lemma ResolvedIff(t: LifecycleText, index: Index, ir: SemanticIR, facts: seq<Fact>, c: Candidate)
    requires UniqueIds(ir.operations)
    ensures ResolutionOf(t, index, GraphOfIr(ir, {}), facts, c).Resolved? <==>
            exists op :: Selects(ir, c, op) && Pinned(t, index, ir, facts, c, op)
  {
    var g := GraphOfIr(ir, {});
    if op :| Selects(ir, c, op) {
      SelectionRead(ir, c, op);
      PinnedRead(t, index, ir, g, facts, c, op);
      OnlySelection(ir, c, op);
    }
    if OperationProblem(g.ops, c).None? {
      var op := g.ops[c.operation];
      SelectionRead(ir, c, op);
      assert Selects(ir, c, op);
    }
  }

  lemma OnlySelection(ir: SemanticIR, c: Candidate, op: Op)
    requires UniqueIds(ir.operations) && Selects(ir, c, op)
    ensures forall other :: Selects(ir, c, other) ==> other == op
  {
    forall other | Selects(ir, c, other) ensures other == op {
      SelectionRead(ir, c, other);
      SelectionRead(ir, c, op);
    }
  }

  lemma PinnedRead(t: LifecycleText, index: Index, ir: SemanticIR, g: Graph, facts: seq<Fact>, c: Candidate, op: Op)
    requires UniqueIds(ir.operations) && g == GraphOfIr(ir, {})
    requires OperationProblem(g.ops, c).None? && op == g.ops[c.operation] && op.id == c.operation
    ensures ResolutionOf(t, index, g, facts, c).Resolved? <==> Pinned(t, index, ir, facts, c, op)
  {
    var binding := op.resultTargets[c.resultIndex];
    FilterCounts((f: Fact) => f.role.ResultCall? && f.operation == c.operation && f.primary, facts,
      CallMarks(op.id, facts));
    OneMarkCounts(CallMarks(op.id, facts));
    BoundIff(t, g, op, binding, c.memberPath, Dedupe(c.cleanupMethods), facts);
    forall m ensures |CleanupMatches(t, g, op, binding, c.memberPath, m, facts)| == 1 <==>
                     OneMark(CleanupMarks(t, ir, op, binding, c.memberPath, m, facts)) {
      OneMatchIsOneMark(t, ir, g, op, binding, c.memberPath, m, facts);
    }
    ReceiverRead(index, op.id);
  }

  /** Why a hypothesis does not resolve: it selects no such call, or the first count that is not one tells,
      ambiguous when it is above one, or the receiver is not known. */
  ghost predicate Explains(
        t: LifecycleText, index: Index, ir: SemanticIR, facts: seq<Fact>, c: Candidate, op: Op, r: Resolution)
    requires c.resultIndex < |op.resultTargets|
  {
    var binding, calls := op.resultTargets[c.resultIndex], CountTrue(CallMarks(op.id, facts));
    if calls != 1 then r == CountAbstention(calls, PrimaryCount(calls))
    else if forall m :: m in c.cleanupMethods ==>
        OneMark(CleanupMarks(t, ir, op, binding, c.memberPath, m, facts)) then r == Unresolved(NoTypeEvidence)
    else exists m ::
      && m in c.cleanupMethods && !OneMark(CleanupMarks(t, ir, op, binding, c.memberPath, m, facts))
      && var n := CountTrue(CleanupMarks(t, ir, op, binding, c.memberPath, m, facts));
         r == CountAbstention(n, CleanupCount(m, n))
  }

  function CountAbstention(n: nat, why: Abstention): Resolution {
    if n > 1 then Ambiguous(why) else Unresolved(why)
  }

  lemma {:induction false} StuckAt(
        t: LifecycleText, g: Graph, op: Op, binding: string, path: string, methods: seq<string>, facts: seq<Fact>)
    ensures var s := BindCleanups(t, g, op, binding, path, methods, facts);
            s.Stuck? ==>
              && s.method_ in methods && s.matches == |CleanupMatches(t, g, op, binding, path, s.method_, facts)|
              && s.matches != 1
    decreases |methods|
  {
    if methods != [] {
      SplitLast(methods);
      StuckAt(t, g, op, binding, path, methods[..|methods| - 1], facts);
    }
  }

  lemma CleanupMarksCount(
        t: LifecycleText, ir: SemanticIR, g: Graph, op: Op, binding: string, path: string, m: string, facts: seq<Fact>)
    requires UniqueIds(ir.operations) && g == GraphOfIr(ir, {})
    ensures |CleanupMatches(t, g, op, binding, path, m, facts)| ==
            CountTrue(CleanupMarks(t, ir, op, binding, path, m, facts))
  {
    var marks := CleanupMarks(t, ir, op, binding, path, m, facts);
    forall i | 0 <= i < |facts| ensures marks[i] == MatchesCleanup(t, g, op, binding, path, m, facts[i]) {
      CleanupRead(t, ir, op, binding, path, m, facts[i]);
    }
    MatchesCount(t, g, op, binding, path, m, facts, marks);
  }

  lemma AbstentionRead(t: LifecycleText, index: Index, ir: SemanticIR, facts: seq<Fact>, c: Candidate, op: Op)
    requires UniqueIds(ir.operations) && Selects(ir, c, op)
    requires !ResolutionOf(t, index, GraphOfIr(ir, {}), facts, c).Resolved?
    ensures Explains(t, index, ir, facts, c, op, ResolutionOf(t, index, GraphOfIr(ir, {}), facts, c))
  {
    var g, binding, methods := GraphOfIr(ir, {}), op.resultTargets[c.resultIndex], Dedupe(c.cleanupMethods);
    SelectionRead(ir, c, op);
    FilterCounts((f: Fact) => f.role.ResultCall? && f.operation == c.operation && f.primary, facts,
      CallMarks(op.id, facts));
    BoundIff(t, g, op, binding, c.memberPath, methods, facts);
    StuckAt(t, g, op, binding, c.memberPath, methods, facts);
    forall m ensures |CleanupMatches(t, g, op, binding, c.memberPath, m, facts)| ==
                     CountTrue(CleanupMarks(t, ir, op, binding, c.memberPath, m, facts)) {
      CleanupMarksCount(t, ir, g, op, binding, c.memberPath, m, facts);
    }
    forall m ensures CountTrue(CleanupMarks(t, ir, op, binding, c.memberPath, m, facts)) == 1 <==>
                     OneMark(CleanupMarks(t, ir, op, binding, c.memberPath, m, facts)) {
      OneMarkCounts(CleanupMarks(t, ir, op, binding, c.memberPath, m, facts));
    }
  }

  // ---------- the validator ----------

  /** The cited facts are in the inventory and carry the hypothesis: the primary call and every cleanup. */
  ghost predicate Carried(t: LifecycleText, ir: SemanticIR, facts: seq<Fact>, c: Candidate, op: Op)
    requires c.resultIndex < |op.resultTargets|
  {
    && AllKnown(facts, c.factIds) && CitesCall(facts, c.factIds, op.id)
    && forall m :: m in c.cleanupMethods ==> exists f ::
         f in facts && f.id in c.factIds &&
           StatesCleanup(t, ir, op, op.resultTargets[c.resultIndex], c.memberPath, m, f)
  }

  /** The type fields fit the mode and the evidence. */
  ghost predicate TypesFit(t: LifecycleText, index: Index, c: Candidate) {
    if c.mode == TypedMethod then
      && c.receiverType != "" && c.typeEvidenceIds != [] && TypedAs(t, index, ProtocolOf(c), c.operation)
      && forall id :: id in c.typeEvidenceIds ==> exists e ::
           e in index && e.id == id && e.operation == c.operation && e.role == Receiver
    else
      && c.receiverType == "" && c.canonicalAcquire == "" && c.typeEvidenceIds == []
      && (c.mode == MethodShape ==> !KnownReceiver(index, c.operation))
  }

  lemma EvidenceRead(index: Index, op: Id, id: Id)
    ensures id in EvidenceIds(index, op, Receiver) <==>
            exists e :: e in index && e.id == id && e.operation == op && e.role == Receiver
  {
    var items := ForOperation(index, op, Receiver);
    if id in EvidenceIds(index, op, Receiver) {
      var i :| 0 <= i < |items| && EvidenceIds(index, op, Receiver)[i] == id;
      assert items[i] in items;
    }
    if e :| e in index && e.id == id && e.operation == op && e.role == Receiver {
      assert e in items;
    }
  }

  lemma CitedEvidenceRead(index: Index, op: Id, ids: seq<Id>)
    ensures SetOf(ids) <= SetOf(EvidenceIds(index, op, Receiver)) <==>
            forall id :: id in ids ==> exists e :: e in index && e.id == id && e.operation == op && e.role == Receiver
  {
    forall id | id in ids ensures id in EvidenceIds(index, op, Receiver) <==>
                                  exists e :: e in index && e.id == id && e.operation == op && e.role == Receiver {
      EvidenceRead(index, op, id);
    }
    if SetOf(ids) <= SetOf(EvidenceIds(index, op, Receiver)) {
      forall id | id in ids ensures id in EvidenceIds(index, op, Receiver) {
        assert id in SetOf(ids);
      }
    }
  }

  lemma TypesRead(t: LifecycleText, index: Index, c: Candidate)
    ensures TypeProblem(t, index, c).None? <==> TypesFit(t, index, c)
  {
    TypedAsMeans(t, index, ProtocolOf(c), c.operation);
    ReceiverRead(index, c.operation);
    CitedEvidenceRead(index, c.operation, c.typeEvidenceIds);
    if c.mode == TypedMethod {
      SymbolIsStated(index, c.operation, c.canonicalAcquire);
    }
  }

  /** What the program, the inventory and the evidence have to say for a hypothesis to be supported. */
  ghost predicate Backed(t: LifecycleText, index: Index, ir: SemanticIR, facts: seq<Fact>, c: Candidate, op: Op) {
    && Selects(ir, c, op) && op.target == c.acquireSymbol
    && Carried(t, ir, facts, c, op) && TypesFit(t, index, c)
  }

  lemma GroundedRead(
        t: LifecycleText, ir: SemanticIR, g: Graph, facts: seq<Fact>, c: Candidate, op: Op, binding: string, m: string)
    requires UniqueIds(ir.operations) && g == GraphOfIr(ir, {}) && ContentAddressed(facts)
    requires forall id :: id in c.factIds ==> id in FactsById(facts)
    ensures m in GroundedMethods(t, g, op, binding, c, Cited(FactsById(facts), c.factIds)) <==>
            m in c.cleanupMethods && exists f ::
              f in facts && f.id in c.factIds && StatesCleanup(t, ir, op, binding, c.memberPath, m, f)
  {
    var byId := FactsById(facts);
    var cited := Cited(byId, c.factIds);
    GroundedMembers(t, g, op, binding, c, cited, m);
    forall f ensures f in cited <==> f in facts && f.id in c.factIds {
      CitedRead(facts, byId, c.factIds, f);
    }
    forall f ensures MatchesCleanup(t, g, op, binding, c.memberPath, m, f) <==>
                     StatesCleanup(t, ir, op, binding, c.memberPath, m, f) {
      CleanupRead(t, ir, op, binding, c.memberPath, m, f);
    }
  }

  lemma CitedRead(facts: seq<Fact>, byId: map<Id, Fact>, ids: seq<Id>, f: Fact)
    requires ContentAddressed(facts) && byId == FactsById(facts) && forall id :: id in ids ==> id in byId
    ensures f in Cited(byId, ids) <==> f in facts && f.id in ids
  {
    if f in facts && f.id in ids {
      var i :| 0 <= i < |ids| && ids[i] == f.id;
      assert byId[f.id] == f;
      assert Cited(byId, ids)[i] == f;
    }
  }

  ghost predicate AllKnown(facts: seq<Fact>, ids: seq<Id>) {
    forall id :: id in ids ==> exists f :: f in facts && f.id == id
  }

  /** A cited fact states the operation as a primary call. */
  ghost predicate CitesCall(facts: seq<Fact>, ids: seq<Id>, operation: Id) {
    exists f :: f in facts && f.id in ids && f.operation == operation && f.primary
  }

  lemma CallRead(ops: map<Id, Op>, facts: seq<Fact>, c: Candidate)
    requires ContentAddressed(facts)
    ensures CallProblem(ops, FactsById(facts), c).None? <==>
            && OperationProblem(ops, c).None? && ops[c.operation].target == c.acquireSymbol
            && AllKnown(facts, c.factIds) && CitesCall(facts, c.factIds, c.operation)
  {
    var byId := FactsById(facts);
    if CallProblem(ops, byId, c).None? {
      var id :| id in c.factIds && byId[id].operation == c.operation && byId[id].primary;
      assert byId[id] in facts;
      forall k | k in c.factIds ensures exists f :: f in facts && f.id == k {
        assert byId[k] in facts && byId[k].id == k;
      }
    }
    if AllKnown(facts, c.factIds) && CitesCall(facts, c.factIds, c.operation) {
      var f :| f in facts && f.id in c.factIds && f.operation == c.operation && f.primary;
      assert byId[f.id] == f;
      if OperationProblem(ops, c).None? && ops[c.operation].target == c.acquireSymbol {
        CallPasses(ops, byId, c, f.id);
      }
    }
  }

  /** Once the call is in order, cleanups and types remain. */
  lemma BackedRead(t: LifecycleText, index: Index, ir: SemanticIR, g: Graph, facts: seq<Fact>, c: Candidate, op: Op)
    requires UniqueIds(ir.operations) && g == GraphOfIr(ir, {}) && ContentAddressed(facts)
    requires CallProblem(g.ops, FactsById(facts), c).None? && op == g.ops[c.operation]
    ensures Backed(t, index, ir, facts, c, op) <==>
            && SetOf(c.cleanupMethods) - GroundedMethods(t, g, op, op.resultTargets[c.resultIndex], c,
                                                         Cited(FactsById(facts), c.factIds)) == {}
            && TypeProblem(t, index, c).None?
  {
    CallRead(g.ops, facts, c);
    SelectionRead(ir, c, op);
    TypesRead(t, index, c);
    GroundsAllRead(t, ir, g, facts, c, op, op.resultTargets[c.resultIndex]);
  }

  lemma BackedCall(t: LifecycleText, index: Index, ir: SemanticIR, g: Graph, facts: seq<Fact>, c: Candidate, op: Op)
    requires UniqueIds(ir.operations) && g == GraphOfIr(ir, {}) && ContentAddressed(facts)
    requires Backed(t, index, ir, facts, c, op)
    ensures CallProblem(g.ops, FactsById(facts), c).None? && op == g.ops[c.operation]
  {
    SelectionRead(ir, c, op);
    CallRead(g.ops, facts, c);
    assert op.id == c.operation;
  }

  lemma NotRejectedIff(t: LifecycleText, index: Index, ir: SemanticIR, facts: seq<Fact>, c: Candidate)
    requires UniqueIds(ir.operations) && ContentAddressed(facts)
    ensures !DecisionOf(t, index, GraphOfIr(ir, {}), FactsById(facts), c).Rejected? <==>
            exists op :: Backed(t, index, ir, facts, c, op)
  {
    var g := GraphOfIr(ir, {});
    if !DecisionOf(t, index, g, FactsById(facts), c).Rejected? {
      BackedRead(t, index, ir, g, facts, c, g.ops[c.operation]);
    }
    if op :| Backed(t, index, ir, facts, c, op) { BackedIsNotRejected(t, index, ir, g, facts, c, op); }
  }

  lemma BackedIsNotRejected(
        t: LifecycleText, index: Index, ir: SemanticIR, g: Graph, facts: seq<Fact>, c: Candidate, op: Op)
    requires UniqueIds(ir.operations) && g == GraphOfIr(ir, {}) && ContentAddressed(facts)
    requires Backed(t, index, ir, facts, c, op)
    ensures !DecisionOf(t, index, g, FactsById(facts), c).Rejected?
  {
    BackedCall(t, index, ir, g, facts, c, op);
    BackedRead(t, index, ir, g, facts, c, op);
  }

  lemma AcceptedRead(t: LifecycleText, index: Index, g: Graph, facts: map<Id, Fact>, c: Candidate)
    ensures var d := DecisionOf(t, index, g, facts, c);
            && (d.Supported? ==> ProtocolAccepted(ProtocolOf(c)) && d.protocol == ProtocolOf(c))
            && (d.Raised? ==> !ProtocolAccepted(ProtocolOf(c)))
  {}

  /** The validator supports a hypothesis exactly when it is backed and the protocol constructor accepts it; if
      the constructor does not, it raises. */
  lemma SupportedIff(t: LifecycleText, index: Index, ir: SemanticIR, facts: seq<Fact>, c: Candidate)
    requires UniqueIds(ir.operations) && ContentAddressed(facts)
    ensures var d, backed := DecisionOf(t, index, GraphOfIr(ir, {}), FactsById(facts), c),
                             exists op :: Backed(t, index, ir, facts, c, op);
            && (d == Supported(ProtocolOf(c)) <==> backed && ProtocolAccepted(ProtocolOf(c)))
            && (d.Raised? <==> backed && !ProtocolAccepted(ProtocolOf(c)))
            && (d.Rejected? <==> !backed)
  {
    NotRejectedIff(t, index, ir, facts, c);
    AcceptedRead(t, index, GraphOfIr(ir, {}), FactsById(facts), c);
  }

  lemma GroundsAllRead(
        t: LifecycleText, ir: SemanticIR, g: Graph, facts: seq<Fact>, c: Candidate, op: Op, binding: string)
    requires UniqueIds(ir.operations) && g == GraphOfIr(ir, {}) && ContentAddressed(facts)
    requires forall id :: id in c.factIds ==> id in FactsById(facts)
    ensures SetOf(c.cleanupMethods) - GroundedMethods(t, g, op, binding, c, Cited(FactsById(facts), c.factIds)) == {}
            <==> forall m :: m in c.cleanupMethods ==> exists f ::
              f in facts && f.id in c.factIds && StatesCleanup(t, ir, op, binding, c.memberPath, m, f)
  {
    var grounded := GroundedMethods(t, g, op, binding, c, Cited(FactsById(facts), c.factIds));
    forall m | m in c.cleanupMethods
      ensures m in grounded <==> exists f ::
        f in facts && f.id in c.factIds && StatesCleanup(t, ir, op, binding, c.memberPath, m, f)
    {
      GroundedRead(t, ir, g, facts, c, op, binding, m);
    }
    assert SetOf(c.cleanupMethods) - grounded == {} <==> forall m :: m in c.cleanupMethods ==> m in grounded by {
      if SetOf(c.cleanupMethods) - grounded == {} {
        forall m | m in c.cleanupMethods ensures m in grounded {
          assert m !in SetOf(c.cleanupMethods) - grounded;
        }
      }
    }
  }
}
