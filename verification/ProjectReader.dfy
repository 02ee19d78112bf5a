/** The trust boundary around untrusted project-reader hypotheses: the evidence resolver and the
    validator (smartbench/engine/project_reader.py). */
module ProjectReader {
  import opened Sequences
  import opened Walks
  import opened Ir
  import opened ControlFlow
  import opened TypeEvidence
  import opened ResourceLifecycle

  datatype FactRole = ResultCall | CleanupRegistration

  /** An inventory fact, as far as resolver and validator read it. */
  datatype Fact = Fact(id: Id, role: FactRole, operation: Id, primary: bool)

  /** A hypothesis of the model. */
  datatype Candidate = Candidate(
    id: Id, operation: Id, acquireSymbol: string, resultIndex: nat, cleanupMethods: seq<string>, mode: MatchMode,
    memberPath: string, receiverType: string, canonicalAcquire: string, typeEvidenceIds: seq<Id>, factIds: seq<Id>)

  /** Fact ids are content addresses. */
  ghost predicate ContentAddressed(facts: seq<Fact>) {
    forall f, h :: f in facts && h in facts && f.id == h.id ==> f == h
  }

  // ---------- strings ----------

  /** The characters Python's strip removes. */
  predicate IsSpace(c: char) {
    var n := c as int;
    || 0x09 <= n <= 0x0D || 0x1C <= n <= 0x20 || n == 0x85 || n == 0xA0 || n == 0x1680
    || 0x2000 <= n <= 0x200A || n == 0x2028 || n == 0x2029 || n == 0x202F || n == 0x205F || n == 0x3000
  }

  predicate Blank(s: string) {
    forall i :: 0 <= i < |s| ==> IsSpace(s[i])
  }

  predicate IsWordChar(c: char) {
    'a' <= c <= 'z' || 'A' <= c <= 'Z' || c == '_' || '0' <= c <= '9'
  }

  predicate IsIdentifier(s: string) {
    s != "" && !('0' <= s[0] <= '9') && forall i :: 0 <= i < |s| ==> IsWordChar(s[i])
  }

  /** One or more identifiers joined by dots. */
  predicate IsDottedPath(s: string)
    decreases |s|
  {
    IsIdentifier(s) || exists i :: 0 <= i < |s| && s[i] == '.' && IsIdentifier(s[..i]) && IsDottedPath(s[i + 1..])
  }

  // ---------- parsing ----------

  predicate HasTypeFields(c: Candidate) {
    c.receiverType != "" || c.canonicalAcquire != "" || c.typeEvidenceIds != []
  }

  /** What _parse_candidate requires of fields that already have the right types and lengths. */
  predicate FieldsAgree(c: Candidate) {
    && c.cleanupMethods != [] && (forall m :: m in c.cleanupMethods ==> IsIdentifier(m))
    && (c.memberPath == "" || IsDottedPath(c.memberPath))
    && (!c.mode.ExactMode? ==> c.memberPath != "")
    && (c.mode.TypedMethod? ==> c.receiverType != "" && c.canonicalAcquire != "")
    && (!c.mode.TypedMethod? ==> !HasTypeFields(c))
  }

  const MAX_CANDIDATES: nat := 30

  /** One raw list item: None when it is not an object whose fields have the right types. */
  type RawItem = Option<Candidate>

  datatype Model = Model(candidates: seq<Candidate>, rejected: nat)

  ghost predicate DistinctIds(cs: seq<Candidate>) {
    forall i, j :: 0 <= i < j < |cs| ==> cs[i].id != cs[j].id
  }

  /** The items _parse_project_model keeps, in order: well-formed, first with their id. */
  ghost function KeptItems(items: seq<RawItem>): seq<Candidate>
    decreases |items|
  {
    if items == [] then []
    else
      var before, item := KeptItems(items[..|items| - 1]), items[|items| - 1];
      if item.Some? && FieldsAgree(item.value) && forall c :: c in before ==> c.id != item.value.id
      then before + [item.value] else before
  }

  /** The outcome of parsing a candidate list: too many items reject the document, bad items
      become uncertainties. */
  ghost function ParsedModel(items: seq<RawItem>): Option<Model> {
    if |items| > MAX_CANDIDATES then None
    else
      KeptItemsAre(items);
      Some(Model(KeptItems(items), |items| - |KeptItems(items)|))
  }

  /** Parsed candidates have distinct ids and fields that agree. */
  lemma {:induction false} KeptItemsAre(items: seq<RawItem>)
    ensures DistinctIds(KeptItems(items)) && |KeptItems(items)| <= |items|
    ensures forall c :: c in KeptItems(items) ==> FieldsAgree(c) && Some(c) in items
    decreases |items|
  {
    if items != [] {
      SplitLast(items);
      KeptItemsAre(items[..|items| - 1]);
    }
  }

  /** c is the first well-formed item with its id, and stands at i. */
  ghost predicate FirstItem(items: seq<RawItem>, i: nat, c: Candidate) {
    && i < |items| && items[i] == Some(c) && FieldsAgree(c)
    && forall j :: 0 <= j < i && items[j].Some? && FieldsAgree(items[j].value) ==> items[j].value.id != c.id
  }

  /** Exactly the first well-formed item with each id is kept, whatever stands beside it. */
  lemma {:induction false} KeptItemsIff(items: seq<RawItem>, c: Candidate)
    ensures c in KeptItems(items) <==> exists i: nat :: FirstItem(items, i, c)
    decreases |items|
  {
    if items != [] {
      var n := |items| - 1;
      KeptItemsIff(items[..n], c);
      if i: nat :| FirstItem(items[..n], i, c) { assert FirstItem(items, i, c); }
      if i: nat :| FirstItem(items, i, c) && i < n { assert FirstItem(items[..n], i, c); }
      if items[n].Some? && FieldsAgree(items[n].value) {
        IdIsTaken(items[..n], items[n].value.id);
        if c == items[n].value && forall k :: k in KeptItems(items[..n]) ==> k.id != c.id {
          assert FirstItem(items, n, c);
        }
      }
    }
  }

  /** An id is taken by a kept candidate exactly when a well-formed item has it. */
  lemma {:induction false} IdIsTaken(items: seq<RawItem>, id: Id)
    ensures (exists c :: c in KeptItems(items) && c.id == id) <==>
            exists i :: 0 <= i < |items| && items[i].Some? && FieldsAgree(items[i].value) && items[i].value.id == id
    decreases |items|
  {
    if items != [] {
      var n := |items| - 1;
      IdIsTaken(items[..n], id);
      var before, kept := KeptItems(items[..n]), KeptItems(items);
      assert forall c :: c in before ==> c in kept;
      if i :| 0 <= i < n && items[i].Some? && FieldsAgree(items[i].value) && items[i].value.id == id {
        assert items[..n][i] == items[i];
        var c :| c in before && c.id == id;
        assert c in kept;
      }
      if items[n].Some? && FieldsAgree(items[n].value) && items[n].value.id == id {
        assert forall c :: c in before ==> c in kept;
        if forall c :: c in before ==> c.id != id { assert items[n].value in kept; }
      }
      if c :| c in kept && c.id == id && c !in before { assert items[n] == Some(c); }
    }
  }

  /** Kept candidates stand in the order of the items. */
  lemma {:induction false} KeptInOrder(items: seq<RawItem>) returns (places: seq<nat>)
    ensures |places| == |KeptItems(items)| && forall k, l :: 0 <= k < l < |places| ==> places[k] < places[l]
    ensures forall k :: 0 <= k < |places| ==> places[k] < |items| && items[places[k]] == Some(KeptItems(items)[k])
    decreases |items|
  {
    places := [];
    if items != [] {
      var n := |items| - 1;
      places := KeptInOrder(items[..n]);
      if |KeptItems(items)| > |places| { places := places + [n]; }
    }
  }

  /** _parse_project_model */
  method ParseModel(items: seq<RawItem>) returns (r: Option<Model>)
    ensures r == ParsedModel(items)
  {
    if |items| > MAX_CANDIDATES {
      return None;
    }
    var candidates: seq<Candidate>, rejected := [], 0;
    var ids: set<Id> := {};
    for i := 0 to |items|
      invariant candidates == KeptItems(items[..i]) && |candidates| + rejected == i
      invariant forall id :: id in ids <==> exists c :: c in candidates && c.id == id
    {
      assert items[..i + 1][..i] == items[..i];
      var item := items[i];
      if item.None? || !FieldsAgree(item.value) || item.value.id in ids {
        rejected := rejected + 1;
      } else {
        ids := ids + {item.value.id};
        candidates := candidates + [item.value];
      }
    }
    assert items[..|items|] == items;
    return Some(Model(candidates, rejected));
  }

  // ---------- the resolver ----------

  /** c registers cleanup method m for the binding of op, reachably and in the same scope. */
  ghost predicate Registers(t: LifecycleText, g: Graph, op: Op, binding: string, path: string, m: string, c: Op) {
    && c.kind.Defer? && c.scope == op.scope && Reach(Rel(g), op.id, c.id)
    && t.memberPath(c, binding) == Some(path) && t.methodName(c) == m
  }

  ghost predicate MatchesCleanup(t: LifecycleText, g: Graph, op: Op, binding: string, path: string, m: string,
          f: Fact) {
    f.role.CleanupRegistration? && f.operation in g.ops && Registers(t, g, op, binding, path, m, g.ops[f.operation])
  }

  ghost function CleanupMatches(
        t: LifecycleText, g: Graph, op: Op, binding: string, path: string, m: string, facts: seq<Fact>): seq<Fact>
    decreases |facts|
  {
    if facts == [] then []
    else
      CleanupMatches(t, g, op, binding, path, m, facts[..|facts| - 1]) +
      (if MatchesCleanup(t, g, op, binding, path, m, facts[|facts| - 1]) then [facts[|facts| - 1]] else [])
  }

  datatype Search = Bound(facts: seq<Fact>) | Stuck(method_: string, matches: nat)

  /** One fact per method, or the first method without exactly one match. */
  ghost function BindCleanups(
        t: LifecycleText, g: Graph, op: Op, binding: string, path: string, methods: seq<string>,
        facts: seq<Fact>): Search
    decreases |methods|
  {
    if methods == [] then Bound([])
    else
      var before, m := BindCleanups(t, g, op, binding, path, methods[..|methods| - 1], facts), methods[|methods| - 1];
      if before.Stuck? then before
      else
        var matches := CleanupMatches(t, g, op, binding, path, m, facts);
        if |matches| == 1 then Bound(before.facts + matches) else Stuck(m, |matches|)
  }

  /** tuple(dict.fromkeys(xs)) */
  function Dedupe<T(==, !new)>(xs: seq<T>): (r: seq<T>)
    ensures forall x :: x in r <==> x in xs
    decreases |xs|
  {
    if xs == [] then []
    else
      assert xs == xs[..|xs| - 1] + [xs[|xs| - 1]];
      var before := Dedupe(xs[..|xs| - 1]);
      if xs[|xs| - 1] in before then before else before + [xs[|xs| - 1]]
  }

  function FactIds(facts: seq<Fact>): seq<Id> {
    MapSeq((f: Fact) => f.id, facts)
  }

  function PrimaryFacts(c: Candidate, facts: seq<Fact>): seq<Fact> {
    Filter((f: Fact) => f.role.ResultCall? && f.operation == c.operation && f.primary, facts)
  }

  datatype Abstention =
    NotACall | NotPrimary | NoIndex | UnusableBinding | PrimaryCount(n: nat) | CleanupCount(m: string, n: nat) |
      NoTypeEvidence

  datatype Resolution = Resolved(candidate: Candidate) | Unresolved(why: Abstention) | Ambiguous(why: Abstention)

  function AbstainOn(n: nat, why: Abstention): Resolution {
    if n == 0 then Unresolved(why) else Ambiguous(why)
  }

  /** The checks on the selected operation itself; None when they pass. */
  function OperationProblem(ops: map<Id, Op>, c: Candidate): Option<Abstention> {
    if c.operation !in ops || !ops[c.operation].kind.Call? then Some(NotACall)
    else
      var op := ops[c.operation];
      if !IsPrimaryResultCall(ops, op) then Some(NotPrimary)
      else if c.resultIndex >= |op.resultTargets| then Some(NoIndex)
      else if !UsableBinding(op.resultTargets[c.resultIndex]) then Some(UnusableBinding)
      else None
  }

  predicate HasUniqueReceiver(index: Index, op: Id) {
    UniqueType(index, op, Receiver) != "" && |CanonicalSymbols(index, op)| == 1 &&
      EvidenceIds(index, op, Receiver) != []
  }

  function ResolvedIds(primary: Fact, cleanups: seq<Fact>): seq<Id> {
    Dedupe([primary.id] + FactIds(cleanups))
  }

  function Emit(index: Index, op: Op, c: Candidate, primary: Fact, cleanups: seq<Fact>): Candidate {
    c.(acquireSymbol := op.target, factIds := ResolvedIds(primary, cleanups),
       typeEvidenceIds := if c.mode.TypedMethod? then EvidenceIds(index, op.id, Receiver) else [])
  }

  /** What the resolver decides for a candidate. */
  ghost function ResolutionOf(t: LifecycleText, index: Index, g: Graph, facts: seq<Fact>, c: Candidate): Resolution {
    var problem := OperationProblem(g.ops, c);
    if problem.Some? then Unresolved(problem.value)
    else
      var op := g.ops[c.operation];
      var primary := PrimaryFacts(c, facts);
      if |primary| != 1 then AbstainOn(|primary|, PrimaryCount(|primary|))
      else
        match BindCleanups(t, g, op, op.resultTargets[c.resultIndex], c.memberPath, Dedupe(c.cleanupMethods), facts)
        case Stuck(m, n) => AbstainOn(n, CleanupCount(m, n))
        case Bound(cleanups) =>
          if c.mode.TypedMethod? && !HasUniqueReceiver(index, op.id) then Unresolved(NoTypeEvidence)
          else Resolved(Emit(index, op, c, primary[0], cleanups))
  }

  method MatchFacts(
        t: LifecycleText, cfg: ControlFlowGraph, op: Op, binding: string, path: string, m: string,
        facts: seq<Fact>) returns (matches: seq<Fact>)
    requires cfg.Valid()
    modifies cfg
    ensures cfg.Valid() && matches == CleanupMatches(t, cfg.graph, op, binding, path, m, facts)
  {
    matches := [];
    for i := 0 to |facts|
      invariant cfg.Valid() && matches == CleanupMatches(t, cfg.graph, op, binding, path, m, facts[..i])
    {
      assert facts[..i + 1][..i] == facts[..i];
      var fact := facts[i];
      if fact.role.CleanupRegistration? && fact.operation in cfg.operations {
        var registers := TestRegisters(t, cfg, op, binding, path, m, cfg.operations[fact.operation]);
        if registers {
          matches := matches + [fact];
        }
      }
    }
    assert facts[..|facts|] == facts;
  }

  method TestRegisters(
        t: LifecycleText, cfg: ControlFlowGraph, op: Op, binding: string, path: string, m: string, c: Op)
          returns (r: bool)
    requires cfg.Valid()
    modifies cfg
    ensures cfg.Valid() && (r <==> Registers(t, cfg.graph, op, binding, path, m, c))
  {
    if !c.kind.Defer? || c.scope != op.scope {
      return false;
    }
    var reached := cfg.Reachable(op.id, c.id);
    return reached && t.memberPath(c, binding) == Some(path) && t.methodName(c) == m;
  }

  method BindAll(
        t: LifecycleText, cfg: ControlFlowGraph, op: Op, binding: string, path: string, methods: seq<string>,
        facts: seq<Fact>) returns (r: Search)
    requires cfg.Valid()
    modifies cfg
    ensures cfg.Valid() && r == BindCleanups(t, cfg.graph, op, binding, path, methods, facts)
  {
    r := Bound([]);
    for i := 0 to |methods|
      invariant cfg.Valid() && r == BindCleanups(t, cfg.graph, op, binding, path, methods[..i], facts)
    {
      assert methods[..i + 1][..i] == methods[..i];
      if r.Bound? {
        var matches := MatchFacts(t, cfg, op, binding, path, methods[i], facts);
        r := if |matches| == 1 then Bound(r.facts + matches) else Stuck(methods[i], |matches|);
      }
    }
    assert methods[..|methods|] == methods;
  }

  /** _resolve_candidate */
  method ResolveCandidate(
        t: LifecycleText, index: Index, cfg: ControlFlowGraph, facts: seq<Fact>, c: Candidate) returns (r: Resolution)
    requires cfg.Valid()
    modifies cfg
    ensures cfg.Valid() && r == ResolutionOf(t, index, cfg.graph, facts, c)
  {
    var problem := OperationProblem(cfg.operations, c);
    if problem.Some? {
      return Unresolved(problem.value);
    }
    var op := cfg.operations[c.operation];
    var primary := PrimaryFacts(c, facts);
    if |primary| != 1 {
      return AbstainOn(|primary|, PrimaryCount(|primary|));
    }
    var search := BindAll(t, cfg, op, op.resultTargets[c.resultIndex], c.memberPath, Dedupe(c.cleanupMethods), facts);
    if search.Stuck? {
      return AbstainOn(search.matches, CleanupCount(search.method_, search.matches));
    }
    if c.mode.TypedMethod? && !HasUniqueReceiver(index, op.id) {
      return Unresolved(NoTypeEvidence);
    }
    return Resolved(Emit(index, op, c, primary[0], search.facts));
  }

  // ---------- the validator ----------

  datatype Reason =
    | MissingFacts | NoSuchCall | SymbolMismatch | NotAPrimaryCall | NoPrimaryFact | IndexUnavailable | BindingUnusable
    | MissingCleanups(methods: set<string>) | UnexpectedTypeFields | WeakensTypeEvidence | TypedLacksEvidence
    | TypedMissingEvidence | TypeNotGrounded | CanonicalNotGrounded
    | ResolutionUnresolved(why: Abstention) | ResolutionAmbiguous(why: Abstention)

  /** Raised is the exception of the protocol constructor, which nothing catches. */
  datatype Decision = Supported(protocol: Protocol) | Rejected(reason: Reason) | Raised

  function FactsById(facts: seq<Fact>): (m: map<Id, Fact>)
    ensures forall id :: id in m ==> m[id] in facts && m[id].id == id
    ensures forall f :: f in facts ==> f.id in m
    decreases |facts|
  {
    if facts == [] then map[]
    else
      assert facts == facts[..|facts| - 1] + [facts[|facts| - 1]];
      FactsById(facts[..|facts| - 1])[facts[|facts| - 1].id := facts[|facts| - 1]]
  }

  /** The protocol constructor's checks (smartbench/analysis/resource_lifecycle.py). */
  predicate ProtocolAccepted(p: Protocol) {
    && !Blank(p.acquireSymbol)
    && p.cleanupMethods != [] && (forall m :: m in p.cleanupMethods ==> !Blank(m))
    && (p.memberPath == "" || IsDottedPath(p.memberPath))
    && (!p.mode.ExactMode? ==> p.memberPath != "")
    && (if p.mode.TypedMethod? then p.receiverType != "" && p.canonicalAcquire != "" && p.typeEvidenceIds != []
        else p.receiverType == "" && p.canonicalAcquire == "" && p.typeEvidenceIds == [])
  }

  function ProtocolOf(c: Candidate): Protocol {
    Protocol(c.acquireSymbol, c.resultIndex, c.cleanupMethods, c.mode, c.memberPath,
             c.receiverType, c.canonicalAcquire, c.typeEvidenceIds, c.factIds)
  }

  /** The checks before the cleanup facts; None when they pass. */
  function CallProblem(ops: map<Id, Op>, facts: map<Id, Fact>, c: Candidate): (r: Option<Reason>)
    ensures r.None? ==> OperationProblem(ops, c).None? && ops[c.operation].target == c.acquireSymbol
    ensures r.None? ==> forall id :: id in c.factIds ==> id in facts
  {
    if c.factIds == [] || exists id :: id in c.factIds && id !in facts then Some(MissingFacts)
    else if c.operation !in ops || !ops[c.operation].kind.Call? then Some(NoSuchCall)
    else
      var op := ops[c.operation];
      if op.target != c.acquireSymbol then Some(SymbolMismatch)
      else if !IsPrimaryResultCall(ops, op) then Some(NotAPrimaryCall)
      else if !exists id :: id in c.factIds && facts[id].operation == c.operation && facts[id].primary then
        Some(NoPrimaryFact)
      else if c.resultIndex >= |op.resultTargets| then Some(IndexUnavailable)
      else if !UsableBinding(op.resultTargets[c.resultIndex]) then Some(BindingUnusable)
      else None
  }

  /** The checks on type evidence; None when they pass. */
  function TypeProblem(t: LifecycleText, index: Index, c: Candidate): Option<Reason> {
    var actual := EvidenceIds(index, c.operation, Receiver);
    if !c.mode.TypedMethod? && HasTypeFields(c) then Some(UnexpectedTypeFields)
    else if c.mode.MethodShape? && HasUniqueReceiver(index, c.operation) then Some(WeakensTypeEvidence)
    else if !c.mode.TypedMethod? then None
    else if c.receiverType == "" || c.canonicalAcquire == "" || c.typeEvidenceIds == [] then Some(TypedLacksEvidence)
    else if !(SetOf(c.typeEvidenceIds) <= SetOf(actual)) then Some(TypedMissingEvidence)
    else if !Compatible(t.normalizeType, c.receiverType,
      UniqueType(index, c.operation, Receiver)) then Some(TypeNotGrounded)
    else if CanonicalSymbols(index, c.operation) != {c.canonicalAcquire} then Some(CanonicalNotGrounded)
    else None
  }

  /** The cleanup methods grounded by the cited facts. */
  ghost function GroundedMethods(t: LifecycleText, g: Graph, op: Op, binding: string, c: Candidate,
          cited: seq<Fact>): set<string>
    decreases |cited|
  {
    if cited == [] then {}
    else
      var f := cited[|cited| - 1];
      GroundedMethods(t, g, op, binding, c, cited[..|cited| - 1]) +
      (if f.operation in g.ops && t.methodName(g.ops[f.operation]) in c.cleanupMethods &&
          MatchesCleanup(t, g, op, binding, c.memberPath, t.methodName(g.ops[f.operation]), f)
       then {t.methodName(g.ops[f.operation])} else {})
  }

  function Cited(facts: map<Id, Fact>, ids: seq<Id>): seq<Fact>
    requires forall id :: id in ids ==> id in facts
  {
    seq(|ids|, i requires 0 <= i < |ids| => facts[ids[i]])
  }

  /** What the validator decides for a candidate. */
  ghost function DecisionOf(t: LifecycleText, index: Index, g: Graph, facts: map<Id, Fact>, c: Candidate): Decision {
    var problem := CallProblem(g.ops, facts, c);
    if problem.Some? then Rejected(problem.value)
    else
      var op := g.ops[c.operation];
      var grounded := GroundedMethods(t, g, op, op.resultTargets[c.resultIndex], c, Cited(facts, c.factIds));
      if SetOf(c.cleanupMethods) - grounded != {} then Rejected(MissingCleanups(SetOf(c.cleanupMethods) - grounded))
      else
        match TypeProblem(t, index, c)
        case Some(reason) => Rejected(reason)
        case None => if ProtocolAccepted(ProtocolOf(c)) then Supported(ProtocolOf(c)) else Raised
  }

  method GroundMethods(
        t: LifecycleText, cfg: ControlFlowGraph, op: Op, binding: string, c: Candidate, cited: seq<Fact>)
          returns (grounded: set<string>)
    requires cfg.Valid()
    modifies cfg
    ensures cfg.Valid() && grounded == GroundedMethods(t, cfg.graph, op, binding, c, cited)
  {
    grounded := {};
    for i := 0 to |cited|
      invariant cfg.Valid() && grounded == GroundedMethods(t, cfg.graph, op, binding, c, cited[..i])
    {
      assert cited[..i + 1][..i] == cited[..i];
      var fact := cited[i];
      if fact.role.CleanupRegistration? && fact.operation in cfg.operations {
        var cleanup := cfg.operations[fact.operation];
        var name := t.methodName(cleanup);
        var registers := TestRegisters(t, cfg, op, binding, c.memberPath, name, cleanup);
        if registers && name in c.cleanupMethods {
          grounded := grounded + {name};
        }
      }
    }
    assert cited[..|cited|] == cited;
  }

  /** _validate_candidate */
  method ValidateCandidate(
        t: LifecycleText, index: Index, cfg: ControlFlowGraph, facts: map<Id, Fact>, c: Candidate) returns (d: Decision)
    requires cfg.Valid()
    modifies cfg
    ensures cfg.Valid() && d == DecisionOf(t, index, cfg.graph, facts, c)
  {
    var problem := CallProblem(cfg.operations, facts, c);
    if problem.Some? {
      return Rejected(problem.value);
    }
    var op := cfg.operations[c.operation];
    var grounded := GroundMethods(t, cfg, op, op.resultTargets[c.resultIndex], c, Cited(facts, c.factIds));
    var missing := SetOf(c.cleanupMethods) - grounded;
    if missing != {} {
      return Rejected(MissingCleanups(missing));
    }
    var types := TypeProblem(t, index, c);
    if types.Some? {
      return Rejected(types.value);
    }
    return if ProtocolAccepted(ProtocolOf(c)) then Supported(ProtocolOf(c)) else Raised;
  }
}
