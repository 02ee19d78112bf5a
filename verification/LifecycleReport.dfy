/** Lifecycle findings in terms of the program alone: its operations, its ways, and the type evidence. */
module LifecycleReport {
  import opened Sequences
  import opened Walks
  import opened Ir
  import opened ControlFlow
  import opened Reading
  import opened TypeEvidence
  import opened ResourceLifecycle

  // ---------- acquisitions ----------

  /** The evidence states a type for the receiver of the operation. */
  ghost predicate StatesType(index: Index, op: Id, name: string) {
    exists e :: e in index && e.operation == op && e.role == Receiver && e.normalizedType == name && name != ""
  }

  ghost predicate StatesSymbol(index: Index, op: Id, name: string) {
    exists e :: e in index && e.operation == op && e.role == Receiver && e.canonical == name && name != ""
  }

  /** name is the one type stated, or empty where none or several are. */
  ghost predicate OneType(index: Index, op: Id, name: string) {
    if name != "" then StatesType(index, op, name) && forall other :: StatesType(index, op, other) ==> other == name
    else (forall other :: !StatesType(index, op, other)) ||
         exists a, b :: StatesType(index, op, a) && StatesType(index, op, b) && a != b
  }

  lemma UniqueTypeIsOneType(index: Index, op: Id, name: string)
    ensures UniqueType(index, op, Receiver) == name <==> OneType(index, op, name)
  {
    var types := TypesOf(index, op, Receiver);
    forall x ensures x in types <==> StatesType(index, op, x) {
      TypeIsStated(index, op, x);
    }
    if |types| == 1 {
      SingletonSet(types);
      var x :| types == {x};
    } else if types != {} {
      var a :| a in types;
      assert types != {a};
      var b :| b in types && b != a;
    }
  }

  lemma TypeIsStated(index: Index, op: Id, x: string)
    ensures x in TypesOf(index, op, Receiver) <==> StatesType(index, op, x)
  {
    var items := ForOperation(index, op, Receiver);
    if e :| e in index && e.operation == op && e.role == Receiver && e.normalizedType == x && x != "" {
      assert e in items;
    }
  }

  lemma SymbolIsStated(index: Index, op: Id, x: string)
    ensures x in CanonicalSymbols(index, op) <==> StatesSymbol(index, op, x)
  {
    var items := ForOperation(index, op, Receiver);
    if e :| e in index && e.operation == op && e.role == Receiver && e.canonical == x && x != "" {
      assert e in items;
    }
  }

  /** The receiver has the protocol's type and the protocol's symbol, and no other symbol. */
  ghost predicate TypedAs(t: LifecycleText, index: Index, p: Protocol, op: Id) {
    && (exists name :: OneType(index, op, name) && t.normalizeType(name) == t.normalizeType(p.receiverType) != "")
    && StatesSymbol(index, op, p.canonicalAcquire)
    && forall other :: StatesSymbol(index, op, other) ==> other == p.canonicalAcquire
  }

  lemma TypedAsMeans(t: LifecycleText, index: Index, p: Protocol, op: Id)
    ensures TypedAs(t, index, p, op) <==>
            Compatible(t.normalizeType, p.receiverType, UniqueType(index, op, Receiver)) &&
              CanonicalSymbols(index, op) == {p.canonicalAcquire}
  {
    forall name ensures OneType(index, op, name) <==> UniqueType(index, op, Receiver) == name {
      UniqueTypeIsOneType(index, op, name);
    }
    forall x ensures x in CanonicalSymbols(index, op) <==> StatesSymbol(index, op, x) {
      SymbolIsStated(index, op, x);
    }
  }

  /** The call names what the protocol acquires: the symbol itself, or in the two looser modes the method of
      a dotted name whose receiver is of unknown or of the stated type. */
  ghost predicate Names(t: LifecycleText, index: Index, p: Protocol, op: Op) {
    match p.mode
    case ExactMode => op.target == p.acquireSymbol
    case MethodShape =>
      && SameMethod(t, p, op)
      && forall e :: e in index && e.operation == op.id ==> e.role != Receiver
    case TypedMethod => SameMethod(t, p, op) && TypedAs(t, index, p, op.id)
  }

  predicate SameMethod(t: LifecycleText, p: Protocol, op: Op) {
    t.dotted(op.target) && t.dotted(p.acquireSymbol) && t.methodName(op) == t.symbolLeaf(p.acquireSymbol)
  }

  /** An assignment takes the results of the operation, which it calls first. */
  ghost predicate TakenByAssignment(ir: SemanticIR, op: Op) {
    exists h :: h in ir.operations && h.id == op.host && h.kind == Assign && h.calls != [] && h.calls[0] == op.target
  }

  /** A call whose results an assignment takes, and that the protocol names. */
  ghost predicate Acquires(t: LifecycleText, index: Index, ir: SemanticIR, p: Protocol, op: Op) {
    && op in ir.operations && op.kind == Call && op.resultTargets != []
    && TakenByAssignment(ir, op) && Names(t, index, p, op)
  }

  lemma NamesIsMatch(t: LifecycleText, index: Index, p: Protocol, op: Op)
    ensures Names(t, index, p, op) <==> MatchesAcquire(t, index, p, op)
  {
    TypedAsMeans(t, index, p, op.id);
    var items := ForOperation(index, op.id, Receiver);
    if items != [] { assert items[0] in items; }
    if e :| e in index && e.operation == op.id && e.role == Receiver { assert e in items; }
  }

  lemma AcquiresIsAcquisition(t: LifecycleText, index: Index, ir: SemanticIR, p: Protocol, op: Op)
    requires UniqueIds(ir.operations)
    ensures op in Acquisitions(t, index, GraphOfIr(ir, {}).ops, SortOps(ir.operations), p) <==>
            Acquires(t, index, ir, p, op)
  {
    var ops := GraphOfIr(ir, {}).ops;
    NamesIsMatch(t, index, p, op);
    if h :| h in ir.operations && h.id == op.host && h.kind == Assign && h.calls != [] && h.calls[0] == op.target {
      KeptOperation(ir, {}, h);
    }
    if op.host in ops { GraphOperation(ir, {}, op.host); }
  }

  // ---------- what happens to the binding ----------

  /** c registers one of the protocol's cleanups on the binding, after the acquisition. */
  ghost predicate Closes(t: LifecycleText, ir: SemanticIR, p: Protocol, acquire: Op, binding: string, c: Op) {
    && c in ir.operations && c.kind == Defer && c.scope == acquire.scope
    && t.memberPath(c, binding) == Some(p.memberPath)
    && (exists m :: m in p.cleanupMethods && t.methodName(c) == m)
    && Leads(ir, {}, Flows, acquire.id, c.id)
  }

  ghost predicate HandsOver(t: LifecycleText, ir: SemanticIR, acquire: Op, binding: string) {
    exists op :: op in ir.operations && op.kind == Return && op.scope == acquire.scope && binding in t.returned(op) &&
                 Leads(ir, {}, Flows, acquire.id, op.id)
  }

  /** u works on the resource after the acquisition; calls embedded in another operation count there. */
  ghost predicate WorksOn(t: LifecycleText, ir: SemanticIR, p: Protocol, acquire: Op, binding: string, u: Op) {
    && u in ir.operations && u.scope == acquire.scope && u.id !in {acquire.id, acquire.host}
    && (u.kind == Call ==> u.host == NO_ID) && !Closes(t, ir, p, acquire, binding, u)
    && t.usesResource(u, binding, p.memberPath)
    && Leads(ir, {}, Flows, acquire.id, u.id)
  }

  /** Some cleanup is on every way to u. */
  ghost predicate Shielded(t: LifecycleText, ir: SemanticIR, p: Protocol, acquire: Op, binding: string, u: Op) {
    exists c :: Closes(t, ir, p, acquire, binding, c) && Passes(ir, {}, acquire.id, c.id, u.id)
  }

  /** What the analyzer finds for an acquisition under a protocol. */
  ghost predicate Deserves(t: LifecycleText, ir: SemanticIR, p: Protocol, acquire: Op, v: Verdict) {
    if p.resultIndex >= |acquire.resultTargets| then v == Abstain(NoResult)
    else
      var binding := acquire.resultTargets[p.resultIndex];
      if binding == "" || binding == "_" then v == Abstain(UnusableResult)
      else if HandsOver(t, ir, acquire, binding) then v == Abstain(OwnershipTransferred)
      else if forall u :: !WorksOn(t, ir, p, acquire, binding, u) then v == Abstain(NoReachableUse)
      else if forall u :: WorksOn(t, ir, p, acquire, binding, u) ==> Shielded(t, ir, p, acquire, binding, u)
      then v == Clean
      else v.Unprotected? && Blames(t, ir, p, acquire, binding, v)
  }

  /** The verdict names the first use without a shield in the order of the source, and the cleanups. */
  ghost predicate Blames(t: LifecycleText, ir: SemanticIR, p: Protocol, acquire: Op, binding: string, v: Verdict)
    requires v.Unprotected?
  {
    && WorksOn(t, ir, p, acquire, binding, v.use) && !Shielded(t, ir, p, acquire, binding, v.use)
    && (forall u :: WorksOn(t, ir, p, acquire, binding, u) && !Shielded(t, ir, p, acquire, binding, u) ==>
          OpLeq(v.use, u))
    && (forall c :: c in v.cleanups <==> Closes(t, ir, p, acquire, binding, c))
  }

  lemma ReachRead(ir: SemanticIR, u: Id, v: Id)
    requires UniqueIds(ir.operations)
    ensures Reach(Rel(GraphOfIr(ir, {})), u, v) <==> Leads(ir, {}, Flows, u, v)
  {
    RelationsAreSteps(ir, {});
    ReachIsLeads(ir, {}, Flows, Rel(GraphOfIr(ir, {})), u, v);
  }

  /** The parts operations play. */
  lemma PartsRead(t: LifecycleText, ir: SemanticIR, p: Protocol, acquire: Op, binding: string, op: Op)
    requires UniqueIds(ir.operations) && op in ir.operations
    ensures var g, s := GraphOfIr(ir, {}), Site(p, acquire, binding);
            && (IsCleanup(t, g, s, op) <==> Closes(t, ir, p, acquire, binding, op))
            && (IsUse(t, g, s, op) <==> WorksOn(t, ir, p, acquire, binding, op))
  {
    ReachRead(ir, acquire.id, op.id);
  }

  lemma HandsOverRead(t: LifecycleText, ir: SemanticIR, acquire: Op, binding: string)
    requires UniqueIds(ir.operations)
    ensures ReturnsBinding(t, ir, acquire, binding) <==> HandsOver(t, ir, acquire, binding)
  {
    forall op | op in ir.operations
      ensures Reach(Rel(GraphOfIr(ir, {})), acquire.id, op.id) <==> Leads(ir, {}, Flows, acquire.id, op.id)
    {
      ReachRead(ir, acquire.id, op.id);
    }
  }

  /** The cleanups of the analyzer are those that close, and cover what these shield. */
  lemma CoveredRead(
        t: LifecycleText, ir: SemanticIR, p: Protocol, acquire: Op, binding: string, cleanups: seq<Op>, u: Op)
    requires UniqueIds(ir.operations)
    requires forall c :: c in cleanups <==> Closes(t, ir, p, acquire, binding, c)
    ensures Covered(GraphOfIr(ir, {}), acquire.id, cleanups, u.id) <==> Shielded(t, ir, p, acquire, binding, u)
  {
    forall c | c in cleanups
      ensures EveryWalkVisits(GraphOfIr(ir, {}), acquire.id, c.id, u.id) <==> Passes(ir, {}, acquire.id, c.id, u.id)
    {
      VisitsIsPasses(ir, {}, acquire.id, c.id, u.id);
    }
  }

  lemma CleanupsRead(t: LifecycleText, ir: SemanticIR, p: Protocol, acquire: Op, binding: string)
    requires UniqueIds(ir.operations)
    ensures forall c :: c in Cast(t, GraphOfIr(ir, {}), Site(p, acquire, binding), Cleanup, SortOps(ir.operations)) <==>
                        Closes(t, ir, p, acquire, binding, c)
  {
    CastMembers(t, GraphOfIr(ir, {}), Site(p, acquire, binding), Cleanup, SortOps(ir.operations));
    forall c | c in ir.operations
      ensures IsCleanup(t, GraphOfIr(ir, {}), Site(p, acquire, binding), c) <==> Closes(t, ir, p, acquire, binding, c)
    {
      PartsRead(t, ir, p, acquire, binding, c);
    }
  }

  lemma UsesRead(t: LifecycleText, ir: SemanticIR, p: Protocol, acquire: Op, binding: string)
    requires UniqueIds(ir.operations)
    ensures forall u :: WorksOn(t, ir, p, acquire, binding, u) <==>
              u in ir.operations && IsUse(t, GraphOfIr(ir, {}), Site(p, acquire, binding), u)
  {
    forall u | u in ir.operations
      ensures IsUse(t, GraphOfIr(ir, {}), Site(p, acquire, binding), u) <==> WorksOn(t, ir, p, acquire, binding, u)
    {
      PartsRead(t, ir, p, acquire, binding, u);
    }
  }

  /** An unprotected verdict names the first use without a shield, and the cleanups. */
  lemma UnprotectedRead(t: LifecycleText, ir: SemanticIR, p: Protocol, acquire: Op, binding: string, v: Verdict)
    requires UniqueIds(ir.operations) && acquire in ir.operations && acquire.kind.Call? && v.Unprotected?
    requires v == VerdictAt(t, GraphOfIr(ir, {}), SortOps(ir.operations), Site(p, acquire, binding))
    ensures Blames(t, ir, p, acquire, binding, v)
  {
    FindingMeansEachCleanupIsAvoidable(t, ir, Site(p, acquire, binding));
    forall c ensures c in v.cleanups <==> Closes(t, ir, p, acquire, binding, c) {
      if c in ir.operations { PartsRead(t, ir, p, acquire, binding, c); }
    }
    PartsRead(t, ir, p, acquire, binding, v.use);
    CoveredRead(t, ir, p, acquire, binding, v.cleanups, v.use);
    forall u | WorksOn(t, ir, p, acquire, binding, u) && !Shielded(t, ir, p, acquire, binding, u)
      ensures OpLeq(v.use, u)
    {
      PartsRead(t, ir, p, acquire, binding, u);
      CoveredRead(t, ir, p, acquire, binding, v.cleanups, u);
    }
  }

  /** The verdict on an acquisition is the one its program deserves. */
  lemma VerdictRead(t: LifecycleText, ir: SemanticIR, p: Protocol, acquire: Op)
    requires UniqueIds(ir.operations) && acquire in ir.operations && acquire.kind.Call?
    ensures Deserves(t, ir, p, acquire, VerdictOf(t, GraphOfIr(ir, {}), SortOps(ir.operations), p, acquire))
  {
    if p.resultIndex < |acquire.resultTargets| {
      var binding := acquire.resultTargets[p.resultIndex];
      if binding != "" && binding != "_" {
        TransferAbstainsIff(t, ir, p, acquire);
        HandsOverRead(t, ir, acquire, binding);
        if !HandsOver(t, ir, acquire, binding) { BoundVerdictRead(t, ir, p, acquire, binding); }
      }
    }
  }

  lemma BoundVerdictRead(t: LifecycleText, ir: SemanticIR, p: Protocol, acquire: Op, binding: string)
    requires UniqueIds(ir.operations) && acquire in ir.operations && acquire.kind.Call?
    requires p.resultIndex < |acquire.resultTargets| && acquire.resultTargets[p.resultIndex] == binding
    requires binding != "" && binding != "_" && !HandsOver(t, ir, acquire, binding)
    ensures Deserves(t, ir, p, acquire, VerdictOf(t, GraphOfIr(ir, {}), SortOps(ir.operations), p, acquire))
  {
    var g, ordered := GraphOfIr(ir, {}), SortOps(ir.operations);
    var v, cleanups := VerdictOf(t, g, ordered, p, acquire), Cast(t, g, Site(p, acquire, binding), Cleanup, ordered);
    HandsOverRead(t, ir, acquire, binding);
    VerdictMeaning(t, ir, p, acquire);
    UsesRead(t, ir, p, acquire, binding);
    CleanupsRead(t, ir, p, acquire, binding);
    forall u: Op ensures Covered(g, acquire.id, cleanups, u.id) <==> Shielded(t, ir, p, acquire, binding, u) {
      CoveredRead(t, ir, p, acquire, binding, cleanups, u);
    }
    if v.Unprotected? { UnprotectedRead(t, ir, p, acquire, binding, v); }
  }

  ghost predicate Found(r: Result, p: Protocol, acquire: Op) {
    exists f :: f in r.findings && f.protocol == p && f.acquire == acquire
  }

  /** Some use on a usable binding that is not handed over has no cleanup on all its ways. */
  ghost predicate Leaks(t: LifecycleText, ir: SemanticIR, p: Protocol, acquire: Op) {
    && p.resultIndex < |acquire.resultTargets|
    && var binding := acquire.resultTargets[p.resultIndex];
       && binding != "" && binding != "_" && !HandsOver(t, ir, acquire, binding)
       && exists u :: WorksOn(t, ir, p, acquire, binding, u) && !Shielded(t, ir, p, acquire, binding, u)
  }

  /** The report of the analyzer on a program: what it finds is what leaks. */
  lemma FindingIff(
        t: LifecycleText, index: Index, ir: SemanticIR, protocols: seq<Protocol>, start: Result, p: Protocol,
        acquire: Op)
    requires UniqueIds(ir.operations) && start.findings == [] && p in protocols
    ensures Found(ReportOf(t, index, GraphOfIr(ir, {}), SortOps(ir.operations), protocols, start), p, acquire) <==>
            Acquires(t, index, ir, p, acquire) && Leaks(t, ir, p, acquire)
  {
    var g, ordered := GraphOfIr(ir, {}), SortOps(ir.operations);
    var r := ReportOf(t, index, g, ordered, protocols, start);
    FindingsAreExact(t, index, g, ordered, protocols, start);
    AcquiresIsAcquisition(t, index, ir, p, acquire);
    assert Found(r, p, acquire) <==>
           acquire in Acquisitions(t, index, g.ops, ordered, p) &&
             VerdictOf(t, g, ordered, p, acquire).Unprotected? by {
      if f :| f in r.findings && f.protocol == p && f.acquire == acquire {
        assert Grounded(t, index, g, ordered, protocols, f);
      }
    }
    if Acquires(t, index, ir, p, acquire) {
      VerdictRead(t, ir, p, acquire);
      UnprotectedIsLeak(t, ir, p, acquire, VerdictOf(t, g, ordered, p, acquire));
    }
  }

  lemma UnprotectedIsLeak(t: LifecycleText, ir: SemanticIR, p: Protocol, acquire: Op, v: Verdict)
    requires Deserves(t, ir, p, acquire, v)
    ensures v.Unprotected? <==> Leaks(t, ir, p, acquire)
  {}

  // ---------- the order of the report ----------

  predicate Earlier(a: Op, b: Op) {
    a.position < b.position || (a.position == b.position && a.id < b.id)
  }

  ghost predicate OpsInOrder(ops: seq<Op>) {
    forall i, j :: 0 <= i < j < |ops| ==> Earlier(ops[i], ops[j])
  }

  /** more appends findings about one protocol and some acquisitions, in the order of the source. */
  ghost predicate Appends(fs: seq<Finding>, more: seq<Finding>, p: Protocol, acquisitions: seq<Op>) {
    && fs <= more && (forall i :: |fs| <= i < |more| ==> more[i].protocol == p && more[i].acquire in acquisitions)
    && forall i, j :: |fs| <= i < j < |more| ==> Earlier(more[i].acquire, more[j].acquire)
  }

  lemma AppendsOne(
        fs: seq<Finding>, more: seq<Finding>, p: Protocol, acquisitions: seq<Op>, last: Op, f: Finding)
    requires Appends(fs, more, p, acquisitions) && OpsInOrder(acquisitions + [last])
    requires f.protocol == p && f.acquire == last
    ensures Appends(fs, more + [f], p, acquisitions + [last])
  {
    forall i | |fs| <= i < |more| ensures Earlier(more[i].acquire, last) {
      var k :| 0 <= k < |acquisitions| && acquisitions[k] == more[i].acquire;
      var all := acquisitions + [last];
      assert all[k] == acquisitions[k] && all[|acquisitions|] == last;
    }
  }

  lemma {:induction false} SitesInOrder(
        t: LifecycleText, index: Index, g: Graph, ordered: seq<Op>, p: Protocol, acquisitions: seq<Op>, r: Result)
    requires OpsInOrder(acquisitions)
    ensures Appends(r.findings, AfterSites(t, index, g, ordered, p, acquisitions, r).findings, p, acquisitions)
    decreases |acquisitions|
  {
    if acquisitions != [] {
      var rest, last := acquisitions[..|acquisitions| - 1], acquisitions[|acquisitions| - 1];
      var before := AfterSites(t, index, g, ordered, p, rest, r);
      SitesInOrder(t, index, g, ordered, p, rest, r);
      assert acquisitions == rest + [last];
      RecordInOrder(index, r.findings, before, p, rest, last, VerdictOf(t, g, ordered, p, last));
    }
  }

  lemma RecordInOrder(
        index: Index, fs: seq<Finding>, before: Result, p: Protocol, acquisitions: seq<Op>, last: Op, v: Verdict)
    requires Appends(fs, before.findings, p, acquisitions) && OpsInOrder(acquisitions + [last])
    ensures Appends(fs, Record(index, before, p, last, v).findings, p, acquisitions + [last])
  {
    if v.Unprotected? {
      AppendsOne(fs, before.findings, p, acquisitions, last,
        Record(index, before, p, last, v).findings[|before.findings|]);
    }
  }

  lemma ProtocolInOrder(
        t: LifecycleText, index: Index, g: Graph, ordered: seq<Op>, p: Protocol, before: Result)
    requires OpsInOrder(ordered)
    ensures Appends(before.findings, AfterProtocol(t, index, g, ordered, p, before).findings, p,
              Acquisitions(t, index, g.ops, ordered, p))
  {
    var ops := g.ops;
    FilterInOrder((op: Op) => op.kind.Call? && MatchesAcquire(t, index, p, op) &&
      IsPrimaryResultCall(ops, op), ordered);
    SitesInOrder(t, index, g, ordered, p, Acquisitions(t, index, g.ops, ordered, p), before);
  }

  lemma {:induction false} FilterInOrder(f: Op -> bool, ops: seq<Op>)
    requires OpsInOrder(ops)
    ensures OpsInOrder(Filter(f, ops))
    decreases |ops|
  {
    if ops != [] {
      FilterInOrder(f, ops[1..]);
      var rest := Filter(f, ops[1..]);
      forall k | 0 <= k < |rest| ensures Earlier(ops[0], rest[k]) {
        assert rest[k] in rest && rest[k] in ops[1..];
        var j :| 0 <= j < |ops[1..]| && ops[1..][j] == rest[k];
        assert ops[j + 1] == rest[k];
      }
    }
  }

  /** turns tells which protocol each finding is about: findings come by protocol, then in source order. */
  ghost predicate InTurn(protocols: seq<Protocol>, fs: seq<Finding>, turns: seq<nat>) {
    && |turns| == |fs|
    && (forall i :: 0 <= i < |fs| ==> turns[i] < |protocols| && protocols[turns[i]] == fs[i].protocol)
    && forall i, j :: 0 <= i < j < |fs| ==>
         turns[i] < turns[j] || (turns[i] == turns[j] && Earlier(fs[i].acquire, fs[j].acquire))
  }

  lemma NextTurn(
        protocols: seq<Protocol>, fs: seq<Finding>, turns: seq<nat>, p: Protocol, more: seq<Finding>,
        acquisitions: seq<Op>)
    returns (next: seq<nat>)
    requires InTurn(protocols, fs, turns) && Appends(fs, more, p, acquisitions)
    ensures InTurn(protocols + [p], more, next)
  {
    next := turns + seq(|more| - |fs|, _ => |protocols|);
    assert forall i :: 0 <= i < |fs| ==> more[i] == fs[i] && next[i] == turns[i];
  }

  lemma {:induction false} TurnsOf(
        t: LifecycleText, index: Index, g: Graph, ordered: seq<Op>, protocols: seq<Protocol>, start: Result)
    returns (turns: seq<nat>)
    requires OpsInOrder(ordered) && start.findings == []
    ensures InTurn(protocols, ReportOf(t, index, g, ordered, protocols, start).findings, turns)
    decreases |protocols|
  {
    turns := [];
    if protocols != [] {
      var rest, p := protocols[..|protocols| - 1], protocols[|protocols| - 1];
      var before := ReportOf(t, index, g, ordered, rest, start);
      turns := TurnsOf(t, index, g, ordered, rest, start);
      ProtocolInOrder(t, index, g, ordered, p, before);
      turns := NextTurn(rest, before.findings, turns, p, AfterProtocol(t, index, g, ordered, p, before).findings,
        Acquisitions(t, index, g.ops, ordered, p));
      assert rest + [p] == protocols;
    }
  }

  /** The findings of a report come by protocol, and for one protocol in the order of the source. */
  lemma FindingsInOrder(t: LifecycleText, index: Index, ir: SemanticIR, protocols: seq<Protocol>, start: Result)
    returns (turns: seq<nat>)
    requires UniqueIds(ir.operations) && start.findings == []
    ensures InTurn(protocols, ReportOf(t, index, GraphOfIr(ir, {}), SortOps(ir.operations), protocols, start).findings,
                   turns)
  {
    SortOpsKeepsUnique(ir.operations);
    SortOpsInOrder(ir.operations);
    turns := TurnsOf(t, index, GraphOfIr(ir, {}), SortOps(ir.operations), protocols, start);
  }
}
