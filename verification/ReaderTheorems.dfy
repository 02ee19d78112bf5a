/** What the trust boundary guarantees, and how resolver, validator and analyzer fit together. */
module ReaderTheorems {
  import opened Sequences
  import opened Walks
  import opened Ir
  import opened ControlFlow
  import opened TypeEvidence
  import opened ResourceLifecycle
  import opened ProjectReader

  // ---------- parsed names ----------

  lemma IdentifierIsNotBlank(s: string)
    requires IsIdentifier(s)
    ensures !Blank(s)
  {
    assert IsWordChar(s[0]) && !IsSpace(s[0]);
  }

  // ---------- supported protocols are grounded ----------

  /** The protocol describes op: a primary result call with a usable binding, and for each cleanup
      method a DEFER of the program registers it on that binding, reachably and in op's scope. */
  ghost predicate GroundedAt(t: LifecycleText, g: Graph, p: Protocol, op: Op) {
    && op.id in g.ops && g.ops[op.id] == op
    && IsPrimaryResultCall(g.ops, op) && op.target == p.acquireSymbol
    && p.resultIndex < |op.resultTargets| && UsableBinding(op.resultTargets[p.resultIndex])
    && p.cleanupMethods != []
    && forall m :: m in p.cleanupMethods ==> Registered(t, g, op, op.resultTargets[p.resultIndex], p.memberPath, m)
  }

  ghost predicate Registered(t: LifecycleText, g: Graph, op: Op, binding: string, path: string, m: string) {
    exists id :: id in g.ops && Registers(t, g, op, binding, path, m, g.ops[id])
  }

  lemma {:induction false} GroundedMembers(
        t: LifecycleText, g: Graph, op: Op, binding: string, c: Candidate, cited: seq<Fact>, m: string)
    ensures m in GroundedMethods(t, g, op, binding, c, cited) <==>
            m in c.cleanupMethods && exists f :: f in cited && MatchesCleanup(t, g, op, binding, c.memberPath, m, f)
    decreases |cited|
  {
    if cited != [] {
      SplitLast(cited);
      GroundedMembers(t, g, op, binding, c, cited[..|cited| - 1], m);
    }
  }

  /** Whatever the candidate, whoever chose its citations: a supported protocol is grounded in
      the program. */
  lemma SupportedIsGrounded(t: LifecycleText, index: Index, g: Graph, facts: map<Id, Fact>, c: Candidate)
    requires WellFormed(g) && DecisionOf(t, index, g, facts, c).Supported?
    ensures var p := DecisionOf(t, index, g, facts, c).protocol;
            p == ProtocolOf(c) && c.operation in g.ops && GroundedAt(t, g, p, g.ops[c.operation])
  {
    var op := g.ops[c.operation];
    var binding, cited := op.resultTargets[c.resultIndex], Cited(facts, c.factIds);
    forall m | m in c.cleanupMethods ensures Registered(t, g, op, binding, c.memberPath, m) {
      assert m in GroundedMethods(t, g, op, binding, c, cited) by {
        assert m in SetOf(c.cleanupMethods);
        assert m !in SetOf(c.cleanupMethods) - GroundedMethods(t, g, op, binding, c, cited);
      }
      GroundedMembers(t, g, op, binding, c, cited, m);
    }
  }

  // ---------- the resolver ----------

  lemma {:induction false} CleanupMatchesAre(
        t: LifecycleText, g: Graph, op: Op, binding: string, path: string, m: string, facts: seq<Fact>)
    ensures forall f :: f in CleanupMatches(t, g, op, binding, path, m, facts) <==>
            f in facts && MatchesCleanup(t, g, op, binding, path, m, f)
    decreases |facts|
  {
    if facts != [] {
      SplitLast(facts);
      CleanupMatchesAre(t, g, op, binding, path, m, facts[..|facts| - 1]);
    }
  }

  /** Bound facts: one per method, and for that method the only match in the inventory. */
  ghost predicate BoundTo(
        t: LifecycleText, g: Graph, op: Op, binding: string, path: string, m: string, facts: seq<Fact>,
        bound: seq<Fact>) {
    exists f :: f in bound && f in facts && MatchesCleanup(t, g, op, binding, path, m, f) &&
                forall h :: h in facts && MatchesCleanup(t, g, op, binding, path, m, h) ==> h == f
  }

  lemma {:induction false} BindCleanupsBinds(
        t: LifecycleText, g: Graph, op: Op, binding: string, path: string, methods: seq<string>,
        facts: seq<Fact>)
    requires BindCleanups(t, g, op, binding, path, methods, facts).Bound?
    ensures var bound := BindCleanups(t, g, op, binding, path, methods, facts).facts;
            && (forall f :: f in bound ==> f in facts)
            && (forall m :: m in methods ==> BoundTo(t, g, op, binding, path, m, facts, bound))
    decreases |methods|
  {
    if methods != [] {
      SplitLast(methods);
      var rest, m := methods[..|methods| - 1], methods[|methods| - 1];
      BindCleanupsBinds(t, g, op, binding, path, rest, facts);
      CleanupMatchesAre(t, g, op, binding, path, m, facts);
      var matches := CleanupMatches(t, g, op, binding, path, m, facts);
      assert matches == [matches[0]];
      var bound := BindCleanups(t, g, op, binding, path, methods, facts).facts;
      forall k | k in rest ensures BoundTo(t, g, op, binding, path, k, facts, bound) {
        assert BoundTo(t, g, op, binding, path, k, facts, BindCleanups(t, g, op, binding, path, rest, facts).facts);
      }
      assert matches[0] in bound && matches[0] in matches;
      assert BoundTo(t, g, op, binding, path, m, facts, bound);
    }
  }

  /** A resolved candidate: the selectors of the hypothesis, the symbol of the real call, one
      primary fact and for each cleanup method its one matching fact. */
  lemma ResolvedMeaning(t: LifecycleText, index: Index, g: Graph, facts: seq<Fact>, c: Candidate)
    requires ResolutionOf(t, index, g, facts, c).Resolved?
    ensures var r := ResolutionOf(t, index, g, facts, c).candidate;
            && OperationProblem(g.ops, c).None?
            && r == c.(acquireSymbol := g.ops[c.operation].target, factIds := r.factIds,
                       typeEvidenceIds := r.typeEvidenceIds)
            && (exists f ::
                  f in facts && f.id in r.factIds && f.role.ResultCall? && f.operation == c.operation && f.primary)
            && (forall id :: id in r.factIds ==> exists f :: f in facts && f.id == id)
            && (forall m :: m in c.cleanupMethods ==> exists f ::
                  f in facts && f.id in r.factIds &&
                    MatchesCleanup(t, g, g.ops[c.operation], g.ops[c.operation].resultTargets[c.resultIndex],
                      c.memberPath, m, f))
  {
    var op := g.ops[c.operation];
    var binding := op.resultTargets[c.resultIndex];
    var methods := Dedupe(c.cleanupMethods);
    BindCleanupsBinds(t, g, op, binding, c.memberPath, methods, facts);
    var bound := BindCleanups(t, g, op, binding, c.memberPath, methods, facts).facts;
    var primary := PrimaryFacts(c, facts)[0];
    assert primary in PrimaryFacts(c, facts);
    var ids := ResolvedIds(primary, bound);
    assert primary.id in ids;
    forall f | f in bound ensures f.id in ids {
      assert f.id in FactIds(bound);
    }
    forall id | id in ids ensures exists f :: f in facts && f.id == id {
      if id != primary.id {
        var k :| 0 <= k < |FactIds(bound)| && FactIds(bound)[k] == id;
        assert bound[k] in bound && bound[k].id == id;
      }
    }
    forall m | m in c.cleanupMethods
      ensures exists f :: f in facts && f.id in ids && MatchesCleanup(t, g, op, binding, c.memberPath, m, f)
    {
      assert BoundTo(t, g, op, binding, c.memberPath, m, facts, bound);
    }
  }

  // ---------- resolver and validator ----------

  /** The conditions on type evidence that the resolver leaves to the validator. */
  ghost predicate ModeAgrees(t: LifecycleText, index: Index, c: Candidate) {
    match c.mode
    case ExactMode => c.receiverType == "" && c.canonicalAcquire == ""
    case MethodShape => c.receiverType == "" && c.canonicalAcquire == "" && !HasUniqueReceiver(index, c.operation)
    case TypedMethod =>
      && c.receiverType != "" && c.canonicalAcquire != ""
      && Compatible(t.normalizeType, c.receiverType, UniqueType(index, c.operation, Receiver))
      && CanonicalSymbols(index, c.operation) == {c.canonicalAcquire}
  }

  lemma CallPasses(ops: map<Id, Op>, facts: map<Id, Fact>, c: Candidate, id: Id)
    requires OperationProblem(ops, c).None? && ops[c.operation].target == c.acquireSymbol
    requires forall k :: k in c.factIds ==> k in facts
    requires id in c.factIds && facts[id].operation == c.operation && facts[id].primary
    ensures CallProblem(ops, facts, c).None?
  {}

  lemma ResolvedPassesCallChecks(t: LifecycleText, index: Index, g: Graph, facts: seq<Fact>, c: Candidate)
    requires WellFormed(g) && ContentAddressed(facts) && ResolutionOf(t, index, g, facts, c).Resolved?
    ensures CallProblem(g.ops, FactsById(facts), ResolutionOf(t, index, g, facts, c).candidate).None?
  {
    ResolvedMeaning(t, index, g, facts, c);
    var r, byId := ResolutionOf(t, index, g, facts, c).candidate, FactsById(facts);
    var f :| f in facts && f.id in r.factIds && f.role.ResultCall? && f.operation == c.operation && f.primary;
    assert byId[f.id] == f;
    assert OperationProblem(g.ops, r).None?;
    CallPasses(g.ops, byId, r, f.id);
  }

  lemma ResolvedGroundsMethods(t: LifecycleText, index: Index, g: Graph, facts: seq<Fact>, c: Candidate)
    requires WellFormed(g) && ContentAddressed(facts) && ResolutionOf(t, index, g, facts, c).Resolved?
    requires forall id :: id in ResolutionOf(t, index, g, facts, c).candidate.factIds ==> id in FactsById(facts)
    ensures var r := ResolutionOf(t, index, g, facts, c).candidate;
            c.operation in g.ops && c.resultIndex < |g.ops[c.operation].resultTargets| &&
            SetOf(r.cleanupMethods) - GroundedMethods(t, g, g.ops[c.operation],
              g.ops[c.operation].resultTargets[c.resultIndex], r,
                                                      Cited(FactsById(facts), r.factIds)) == {}
  {
    ResolvedMeaning(t, index, g, facts, c);
    var r, byId := ResolutionOf(t, index, g, facts, c).candidate, FactsById(facts);
    var op := g.ops[c.operation];
    var binding, cited := op.resultTargets[c.resultIndex], Cited(FactsById(facts), r.factIds);
    forall m | m in r.cleanupMethods ensures m in GroundedMethods(t, g, op, binding, r, cited) {
      var f :| f in facts && f.id in r.factIds && MatchesCleanup(t, g, op, binding, c.memberPath, m, f);
      assert byId[f.id] == f;
      var k :| 0 <= k < |r.factIds| && r.factIds[k] == f.id;
      assert cited[k] == f;
      GroundedMembers(t, g, op, binding, r, cited, m);
    }
  }

  lemma ResolvedTypeProblem(t: LifecycleText, index: Index, g: Graph, facts: seq<Fact>, c: Candidate)
    requires WellFormed(g) && ResolutionOf(t, index, g, facts, c).Resolved?
    ensures TypeProblem(t, index, ResolutionOf(t, index, g, facts, c).candidate).None? <==> ModeAgrees(t, index, c)
  {
    var r := ResolutionOf(t, index, g, facts, c).candidate;
    if c.mode.TypedMethod? {
      assert r.typeEvidenceIds == EvidenceIds(index, c.operation, Receiver) && r.typeEvidenceIds != [];
    } else {
      assert r.typeEvidenceIds == [];
    }
  }

  /** Resolver and validator agree: a resolved candidate is supported exactly when the stated
      type evidence fits its mode and the protocol constructor accepts it; nothing about calls,
      bindings, facts or cleanups can be rejected any more. */
  lemma ResolverAndValidatorAgree(t: LifecycleText, index: Index, g: Graph, facts: seq<Fact>, c: Candidate)
    requires WellFormed(g) && ContentAddressed(facts) && ResolutionOf(t, index, g, facts, c).Resolved?
    ensures var r := ResolutionOf(t, index, g, facts, c).candidate;
            var d := DecisionOf(t, index, g, FactsById(facts), r);
            && (d.Supported? <==> ModeAgrees(t, index, c) && ProtocolAccepted(ProtocolOf(r)))
            && (d.Raised? <==> ModeAgrees(t, index, c) && !ProtocolAccepted(ProtocolOf(r)))
            && (d.Supported? ==> d.protocol == ProtocolOf(r))
  {
    ResolvedMeaning(t, index, g, facts, c);
    ResolvedPassesCallChecks(t, index, g, facts, c);
    ResolvedGroundsMethods(t, index, g, facts, c);
    ResolvedTypeProblem(t, index, g, facts, c);
  }

  /** For a candidate that came through the parser only a blank real symbol can make the protocol
      constructor raise. */
  lemma ParsedProtocolAccepted(t: LifecycleText, index: Index, g: Graph, facts: seq<Fact>, c: Candidate)
    requires FieldsAgree(c) && ResolutionOf(t, index, g, facts, c).Resolved?
    ensures ProtocolAccepted(ProtocolOf(ResolutionOf(t, index, g, facts, c).candidate)) <==>
            !Blank(g.ops[c.operation].target)
  {
    ResolvedMeaning(t, index, g, facts, c);
    forall m | m in c.cleanupMethods ensures !Blank(m) { IdentifierIsNotBlank(m); }
    var r := ResolutionOf(t, index, g, facts, c).candidate;
    assert c.mode.TypedMethod? ==>
             r.typeEvidenceIds == EvidenceIds(index, g.ops[c.operation].id, Receiver) && r.typeEvidenceIds != [];
  }

  /** An exact-mode candidate that came through the parser is supported as soon as it resolves,
      unless the real call's symbol is blank, where the constructor raises. */
  lemma ExactResolvedIsSupported(t: LifecycleText, index: Index, g: Graph, facts: seq<Fact>, c: Candidate)
    requires WellFormed(g) && ContentAddressed(facts) && FieldsAgree(c) && c.mode.ExactMode?
    requires ResolutionOf(t, index, g, facts, c).Resolved?
    ensures var d := DecisionOf(t, index, g, FactsById(facts), ResolutionOf(t, index, g, facts, c).candidate);
            if Blank(g.ops[c.operation].target) then d.Raised? else d.Supported?
  {
    ResolverAndValidatorAgree(t, index, g, facts, c);
    ParsedProtocolAccepted(t, index, g, facts, c);
  }

  // ---------- the analyzer ----------

  lemma {:induction false} KeepAll(f: Op -> bool, ops: seq<Op>)
    requires forall op :: op in ops ==> f(op)
    ensures Filter(f, ops) == ops
    decreases |ops|
  {
    if ops != [] {
      assert ops[0] in ops && ops == [ops[0]] + ops[1..];
      KeepAll(f, ops[1..]);
    }
  }

  lemma GraphOpsAreAll(ir: SemanticIR)
    ensures GraphOfIr(ir, {}).ops == OpsById(ir.operations)
  {
    KeepAll((op: Op) => Kept(op, {}), ir.operations);
  }

  /** When the analyzer matches a supported protocol's own exemplar call: always in exact mode;
      otherwise only for dotted names, and by method shape only without receiver evidence. */
  ghost predicate ExemplarMatches(t: LifecycleText, index: Index, p: Protocol, op: Op) {
    p.mode.ExactMode? ||
    (t.dotted(op.target) && t.methodName(op) == t.symbolLeaf(op.target) &&
     (p.mode.TypedMethod? || ForOperation(index, op.id, Receiver) == []))
  }

  /** Analyzer and validator agree on the exemplar of a supported protocol: its result and
      binding are usable, each cleanup method is among the analyzer's cleanups, and it is an
      acquisition exactly when the mode matches it. */
  lemma ExemplarIsEvaluated(t: LifecycleText, index: Index, ir: SemanticIR, facts: map<Id, Fact>, c: Candidate)
    requires UniqueIds(ir.operations)
    requires DecisionOf(t, index, GraphOfIr(ir, {}), facts, c).Supported?
    ensures var g, ordered, p := GraphOfIr(ir, {}), SortOps(ir.operations), ProtocolOf(c);
            && c.operation in g.ops && p.resultIndex < |g.ops[c.operation].resultTargets|
            && UsableBinding(g.ops[c.operation].resultTargets[p.resultIndex])
            && (g.ops[c.operation] in Acquisitions(t, index, g.ops, ordered, p) <==>
               ExemplarMatches(t, index, p, g.ops[c.operation]))
    ensures var g, ordered, p := GraphOfIr(ir, {}), SortOps(ir.operations), ProtocolOf(c);
            var s := Site(p, g.ops[c.operation], g.ops[c.operation].resultTargets[p.resultIndex]);
            && Cast(t, g, s, Cleanup, ordered) != []
            && forall m :: m in p.cleanupMethods ==> exists k ::
               k in Cast(t, g, s, Cleanup, ordered) && t.methodName(k) == m
  {
    var g, ordered, p := GraphOfIr(ir, {}), SortOps(ir.operations), ProtocolOf(c);
    SupportedIsGrounded(t, index, g, facts, c);
    GraphOpsAreAll(ir);
    var op := g.ops[c.operation];
    var s := Site(p, op, op.resultTargets[p.resultIndex]);
    assert op in ordered;
    assert op.id == c.operation;
    ExemplarMatching(t, index, g, facts, c, op);
    forall m | m in p.cleanupMethods ensures exists k :: k in Cast(t, g, s, Cleanup, ordered) && t.methodName(k) == m {
      CleanupIsCast(t, ir, s, m);
    }
    assert p.cleanupMethods[0] in p.cleanupMethods;
  }

  lemma ExemplarMatching(t: LifecycleText, index: Index, g: Graph, facts: map<Id, Fact>, c: Candidate, op: Op)
    requires WellFormed(g) && DecisionOf(t, index, g, facts, c).Supported? && c.operation in g.ops &&
             g.ops[c.operation] == op
    ensures MatchesAcquire(t, index, ProtocolOf(c), op) <==> ExemplarMatches(t, index, ProtocolOf(c), op)
  {
    assert op.id == c.operation && TypeProblem(t, index, c).None?;
  }

  lemma CleanupIsCast(t: LifecycleText, ir: SemanticIR, s: Site, m: string)
    requires m in s.protocol.cleanupMethods
    requires Registered(t, GraphOfIr(ir, {}), s.acquire, s.binding, s.protocol.memberPath, m)
    ensures exists k :: k in Cast(t, GraphOfIr(ir, {}), s, Cleanup, SortOps(ir.operations)) && t.methodName(k) == m
  {
    var g, ordered := GraphOfIr(ir, {}), SortOps(ir.operations);
    GraphOpsAreAll(ir);
    var id :| id in g.ops && Registers(t, g, s.acquire, s.binding, s.protocol.memberPath, m, g.ops[id]);
    CastMembers(t, g, s, Cleanup, ordered);
    assert g.ops[id] in ordered && IsCleanup(t, g, s, g.ops[id]);
  }

  predicate InputAbstention(v: Verdict) {
    v.Abstain? && (v.reason.NoAcquire? || v.reason.NoResult? || v.reason.UnusableResult?)
  }

  lemma UsableResultIsJudged(t: LifecycleText, g: Graph, ordered: seq<Op>, p: Protocol, acquire: Op)
    requires p.resultIndex < |acquire.resultTargets| && UsableBinding(acquire.resultTargets[p.resultIndex])
    ensures !InputAbstention(VerdictOf(t, g, ordered, p, acquire))
  {
    var first :=
      FirstUnprotected(g, acquire.id,
        Cast(t, g, Site(p, acquire, acquire.resultTargets[p.resultIndex]), Cleanup, ordered),
                                  Cast(t, g, Site(p, acquire, acquire.resultTargets[p.resultIndex]), Use, ordered));
  }

  /** End to end for exact mode: a parsed candidate that resolves on an IR yields a protocol whose
      exemplar the analyzer evaluates; none of the three input abstentions can occur there. */
  lemma ExactCandidateIsAnalyzed(t: LifecycleText, index: Index, ir: SemanticIR, facts: seq<Fact>, c: Candidate)
    requires UniqueIds(ir.operations) && ContentAddressed(facts) && FieldsAgree(c) && c.mode.ExactMode?
    requires var g := GraphOfIr(ir, {});
             ResolutionOf(t, index, g, facts, c).Resolved? && !Blank(g.ops[c.operation].target)
    ensures var g, ordered := GraphOfIr(ir, {}), SortOps(ir.operations);
            var p := ProtocolOf(ResolutionOf(t, index, g, facts, c).candidate);
            && g.ops[c.operation] in Acquisitions(t, index, g.ops, ordered, p)
            && !InputAbstention(VerdictOf(t, g, ordered, p, g.ops[c.operation]))
  {
    var g := GraphOfIr(ir, {});
    ExactResolvedIsSupported(t, index, g, facts, c);
    ResolverAndValidatorAgree(t, index, g, facts, c);
    ResolvedMeaning(t, index, g, facts, c);
    var r := ResolutionOf(t, index, g, facts, c).candidate;
    ExemplarIsEvaluated(t, index, ir, FactsById(facts), r);
    UsableResultIsJudged(t, g, SortOps(ir.operations), ProtocolOf(r), g.ops[c.operation]);
  }

  /** The validator supports the resolved candidate, and the analyzer does not match its exemplar. */
  ghost predicate SupportedButUnmatched(t: LifecycleText, index: Index, ir: SemanticIR, facts: seq<Fact>, c: Candidate)
    requires ResolutionOf(t, index, GraphOfIr(ir, {}), facts, c).Resolved?
  {
    var g := GraphOfIr(ir, {});
    var d := DecisionOf(t, index, g, FactsById(facts), ResolutionOf(t, index, g, facts, c).candidate);
    && d.Supported? && c.operation in g.ops
    && g.ops[c.operation] !in Acquisitions(t, index, g.ops, SortOps(ir.operations), d.protocol)
  }

  /** When a parsed method-shape candidate is supported and yet not matched: there is evidence for
      its receiver but no unique one, or the shape of its symbol is not comparable. */
  lemma ShapeIsUnmatchedIff(t: LifecycleText, index: Index, ir: SemanticIR, facts: seq<Fact>, c: Candidate)
    requires UniqueIds(ir.operations) && ContentAddressed(facts) && FieldsAgree(c) && c.mode.MethodShape?
    requires ResolutionOf(t, index, GraphOfIr(ir, {}), facts, c).Resolved?
    ensures var op := GraphOfIr(ir, {}).ops[c.operation];
            SupportedButUnmatched(t, index, ir, facts, c) <==>
            && !Blank(op.target) && !HasUniqueReceiver(index, c.operation)
            && (ForOperation(index, c.operation, Receiver) != [] || !t.dotted(op.target) ||
               t.methodName(op) != t.symbolLeaf(op.target))
  {
    var g := GraphOfIr(ir, {});
    var r := ResolutionOf(t, index, g, facts, c).candidate;
    ResolverAndValidatorAgree(t, index, g, facts, c);
    ParsedProtocolAccepted(t, index, g, facts, c);
    ResolvedMeaning(t, index, g, facts, c);
    if DecisionOf(t, index, g, FactsById(facts), r).Supported? {
      ExemplarIsEvaluated(t, index, ir, FactsById(facts), r);
      assert g.ops[c.operation].id == c.operation;
    }
  }
}
