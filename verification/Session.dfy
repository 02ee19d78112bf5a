/** The project-reader stage of an analysis session (smartbench/core/session.py): hypothesis,
    resolution, validation, bounded repair, analysis.  The model behind it is any function from
    call numbers to replies. */
module Session {
  import opened Sequences
  import opened Walks
  import opened Ir
  import opened ControlFlow
  import opened TypeEvidence
  import opened ResourceLifecycle
  import opened ProjectReader
  import opened ReaderTheorems

  /** A reply is either unusable or a document with a list of raw candidates. */
  datatype Reply = Unusable | Document(items: seq<RawItem>)

  type Replies = nat -> Reply

  /** What stays fixed over a run. */
  datatype Boundary = Boundary(t: LifecycleText, index: Index, ir: SemanticIR, facts: seq<Fact>)

  ghost function GraphIn(b: Boundary): Graph {
    GraphOfIr(b.ir, {})
  }

  /** The deterministic gates as functions of a candidate: what the resolver makes of it, and what
      the validator decides on the candidate the resolver emits. */
  datatype Gates = Gates(resolve: Candidate -> Resolution, decide: Candidate -> Decision)

  ghost predicate GatesAt(b: Boundary, j: Gates, c: Candidate) {
    && j.resolve(c) == ResolutionOf(b.t, b.index, GraphIn(b), b.facts, c)
    && (j.resolve(c).Resolved? ==>
          j.decide(c) == DecisionOf(b.t, b.index, GraphIn(b), FactsById(b.facts), j.resolve(c).candidate))
  }

  /** j is what resolver and validator compute for this IR and inventory. */
  ghost predicate GatesOf(b: Boundary, j: Gates) {
    forall c {:trigger GatesAt(b, j, c)} :: GatesAt(b, j, c)
  }

  lemma GatesExist(b: Boundary) returns (j: Gates)
    ensures GatesOf(b, j)
  {
    var resolve: Candidate -> Resolution := c => ResolutionOf(b.t, b.index, GraphIn(b), b.facts, c);
    var decide: Candidate -> Decision := c =>
      if resolve(c).Resolved? then DecisionOf(b.t, b.index, GraphIn(b), FactsById(b.facts), resolve(c).candidate)
      else Raised;
    j := Gates(resolve, decide);
    forall c ensures GatesAt(b, j, c) {}
  }

  // ---------- one round: resolve and validate ----------

  datatype MappingDecision = MappingDecision(candidate: Id, decision: Decision)

  function Abstained(r: Resolution): Decision
    requires !r.Resolved?
  {
    match r
    case Unresolved(why) => Rejected(ResolutionUnresolved(why))
    case Ambiguous(why) => Rejected(ResolutionAmbiguous(why))
  }

  /** The one decision a candidate gets. */
  ghost function FinalDecision(j: Gates, c: Candidate): Decision {
    if j.resolve(c).Resolved? then j.decide(c) else Abstained(j.resolve(c))
  }

  ghost function MappingOf(j: Gates, c: Candidate): MappingDecision {
    MappingDecision(c.id, FinalDecision(j, c))
  }

  /** The decisions on the candidates that resolved (or did not), in order. */
  ghost function DecisionsOn(j: Gates, cs: seq<Candidate>, resolved: bool): seq<MappingDecision>
    decreases |cs|
  {
    if cs == [] then []
    else
      var c := cs[|cs| - 1];
      DecisionsOn(j, cs[..|cs| - 1], resolved) + (if j.resolve(c).Resolved? == resolved then [MappingOf(j, c)] else [])
  }

  ghost predicate SomeRaise(j: Gates, cs: seq<Candidate>) {
    exists c :: c in cs && FinalDecision(j, c).Raised?
  }

  ghost function Judged(j: Gates, cs: seq<Candidate>): seq<MappingDecision> {
    DecisionsOn(j, cs, true) + DecisionsOn(j, cs, false)
  }

  ghost function EachDecision(j: Gates, cs: seq<Candidate>): multiset<MappingDecision>
    decreases |cs|
  {
    if cs == [] then multiset{} else EachDecision(j, cs[..|cs| - 1]) + multiset{MappingOf(j, cs[|cs| - 1])}
  }

  /** Every candidate of the model gets exactly one decision, and there are no others. */
  lemma {:induction false} EveryCandidateIsDecidedOnce(j: Gates, cs: seq<Candidate>)
    ensures multiset(Judged(j, cs)) == EachDecision(j, cs) && |Judged(j, cs)| == |cs|
    decreases |cs|
  {
    if cs != [] {
      EveryCandidateIsDecidedOnce(j, cs[..|cs| - 1]);
      var d := [MappingOf(j, cs[|cs| - 1])];
      assert multiset(d) == multiset{MappingOf(j, cs[|cs| - 1])};
    }
  }

  lemma {:induction false} DecisionsOnMembers(j: Gates, cs: seq<Candidate>, resolved: bool, d: MappingDecision)
    ensures d in DecisionsOn(j, cs, resolved) <==>
            exists c :: c in cs && j.resolve(c).Resolved? == resolved && d == MappingOf(j, c)
    decreases |cs|
  {
    if cs != [] {
      SplitLast(cs);
      DecisionsOnMembers(j, cs[..|cs| - 1], resolved, d);
    }
  }

  lemma JudgedMembers(j: Gates, cs: seq<Candidate>, d: MappingDecision)
    ensures d in Judged(j, cs) <==> exists c :: c in cs && d == MappingOf(j, c)
  {
    DecisionsOnMembers(j, cs, true, d);
    DecisionsOnMembers(j, cs, false, d);
  }

  ghost predicate DecidedOnce(ds: seq<MappingDecision>) {
    forall i, k :: 0 <= i < k < |ds| ==> ds[i].candidate != ds[k].candidate
  }

  lemma SameIdSameCandidate(cs: seq<Candidate>, c: Candidate, d: Candidate)
    requires DistinctIds(cs) && c in cs && d in cs && c.id == d.id
    ensures c == d
  {
    var i :| 0 <= i < |cs| && cs[i] == c;
    var k :| 0 <= k < |cs| && cs[k] == d;
    assert i == k;
  }

  lemma {:induction false} DecisionsOnIds(j: Gates, cs: seq<Candidate>, resolved: bool)
    requires DistinctIds(cs)
    ensures DecidedOnce(DecisionsOn(j, cs, resolved))
    decreases |cs|
  {
    if cs != [] {
      var rest, c := cs[..|cs| - 1], cs[|cs| - 1];
      DecisionsOnIds(j, rest, resolved);
      forall d | d in DecisionsOn(j, rest, resolved) ensures d.candidate != c.id {
        DecisionsOnMembers(j, rest, resolved, d);
      }
    }
  }

  /** With distinct candidate ids, as the parser leaves them, no id is decided twice. */
  lemma NoCandidateIsDecidedTwice(j: Gates, cs: seq<Candidate>)
    requires DistinctIds(cs)
    ensures DecidedOnce(Judged(j, cs))
  {
    DecisionsOnIds(j, cs, true);
    DecisionsOnIds(j, cs, false);
    forall d, e | d in DecisionsOn(j, cs, true) && e in DecisionsOn(j, cs, false) ensures d.candidate != e.candidate {
      DecisionsOnMembers(j, cs, true, d);
      DecisionsOnMembers(j, cs, false, e);
      var c :| c in cs && j.resolve(c).Resolved? && d == MappingOf(j, c);
      var h :| h in cs && !j.resolve(h).Resolved? && e == MappingOf(j, h);
      if c.id == h.id { SameIdSameCandidate(cs, c, h); }
    }
  }

  ghost predicate Resolves(j: Gates, cs: seq<Candidate>, rs: seq<Resolution>) {
    |rs| == |cs| && forall i :: 0 <= i < |cs| ==> rs[i] == j.resolve(cs[i])
  }

  method ResolveOne(b: Boundary, ghost j: Gates, cfg: ControlFlowGraph, c: Candidate) returns (r: Resolution)
    requires GatesOf(b, j) && cfg.Valid() && cfg.graph == GraphIn(b)
    modifies cfg
    ensures cfg.Valid() && r == j.resolve(c)
  {
    r := ResolveCandidate(b.t, b.index, cfg, b.facts, c);
    assert GatesAt(b, j, c);
  }

  method ValidateOne(
        b: Boundary, ghost j: Gates, cfg: ControlFlowGraph, ghost c: Candidate, emitted: Candidate)
          returns (d: Decision)
    requires GatesOf(b, j) && cfg.Valid() && cfg.graph == GraphIn(b)
    requires j.resolve(c) == Resolved(emitted)
    modifies cfg
    ensures cfg.Valid() && d == j.decide(c)
  {
    d := ValidateCandidate(b.t, b.index, cfg, FactsById(b.facts), emitted);
    assert GatesAt(b, j, c);
  }

  /** DeterministicEvidenceResolver.resolve */
  method Resolve(b: Boundary, ghost j: Gates, cs: seq<Candidate>) returns (rs: seq<Resolution>)
    requires GatesOf(b, j)
    ensures Resolves(j, cs, rs)
  {
    var cfg := FromIr(b.ir, {});
    rs := [];
    for i := 0 to |cs|
      invariant cfg.Valid() && fresh(cfg) && cfg.graph == GraphIn(b)
      invariant |rs| == i && forall k :: 0 <= k < i ==> rs[k] == j.resolve(cs[k])
    {
      var r := ResolveOne(b, j, cfg, cs[i]);
      rs := rs + [r];
    }
  }

  /** ProjectModelValidator.validate on the resolved candidates; the protocol constructor's
      exception ends it. */
  method Validate(
        b: Boundary, ghost j: Gates, cs: seq<Candidate>, rs: seq<Resolution>)
          returns (raised: bool, ds: seq<MappingDecision>)
    requires GatesOf(b, j) && Resolves(j, cs, rs)
    ensures raised <==> SomeRaise(j, cs)
    ensures !raised ==> ds == DecisionsOn(j, cs, true)
  {
    var cfg := FromIr(b.ir, {});
    raised, ds := false, [];
    var i := 0;
    while i < |cs| && !raised
      invariant 0 <= i <= |cs| && cfg.Valid() && fresh(cfg) && cfg.graph == GraphIn(b)
      invariant raised <==> SomeRaise(j, cs[..i])
      invariant !raised ==> ds == DecisionsOn(j, cs[..i], true)
    {
      assert cs[..i + 1] == cs[..i] + [cs[i]];
      RaiseOneMore(j, cs[..i], cs[i]);
      if rs[i].Resolved? {
        var d := ValidateOne(b, j, cfg, cs[i], rs[i].candidate);
        raised := d.Raised?;
        ds := ds + [MappingDecision(cs[i].id, d)];
      }
      i := i + 1;
    }
    if raised {
      RaiseKept(j, cs, i);
    } else {
      assert cs[..|cs|] == cs;
    }
  }

  lemma RaiseOneMore(j: Gates, cs: seq<Candidate>, c: Candidate)
    ensures SomeRaise(j, cs + [c]) <==> SomeRaise(j, cs) || FinalDecision(j, c).Raised?
    ensures DecisionsOn(j, cs + [c], true) == DecisionsOn(j, cs, true) +
            (if j.resolve(c).Resolved? then [MappingOf(j, c)] else [])
    ensures !j.resolve(c).Resolved? ==> !FinalDecision(j, c).Raised?
  {
    assert (cs + [c])[..|cs|] == cs;
    if FinalDecision(j, c).Raised? { assert c in cs + [c]; }
  }

  lemma RaiseKept(j: Gates, cs: seq<Candidate>, i: nat)
    requires i <= |cs| && SomeRaise(j, cs[..i])
    ensures SomeRaise(j, cs)
  {
    var c :| c in cs[..i] && FinalDecision(j, c).Raised?;
  }

  /** The loop that appends a rejection for each abstention of the resolver. */
  method AppendAbstentions(
        ghost j: Gates, cs: seq<Candidate>, rs: seq<Resolution>, ds: seq<MappingDecision>)
          returns (all: seq<MappingDecision>)
    requires Resolves(j, cs, rs)
    ensures all == ds + DecisionsOn(j, cs, false)
  {
    all := ds;
    for i := 0 to |cs|
      invariant all == ds + DecisionsOn(j, cs[..i], false)
    {
      assert cs[..i + 1][..i] == cs[..i];
      if !rs[i].Resolved? {
        all := all + [MappingDecision(cs[i].id, Abstained(rs[i]))];
      }
    }
    assert cs[..|cs|] == cs;
  }

  /** _resolve_and_validate */
  method ResolveAndValidate(b: Boundary, ghost j: Gates, cs: seq<Candidate>)
    returns (raised: bool, ds: seq<MappingDecision>)
    requires GatesOf(b, j)
    ensures raised <==> SomeRaise(j, cs)
    ensures !raised ==> ds == Judged(j, cs)
  {
    var rs := Resolve(b, j, cs);
    raised, ds := Validate(b, j, cs, rs);
    if !raised {
      ds := AppendAbstentions(j, cs, rs, ds);
    }
  }

  // ---------- the repair loop ----------

  function ProtocolsOf(ds: seq<MappingDecision>): seq<Protocol>
    decreases |ds|
  {
    if ds == [] then []
    else
      ProtocolsOf(ds[..|ds| - 1]) +
      (if ds[|ds| - 1].decision.Supported? then [ds[|ds| - 1].decision.protocol] else [])
  }

  predicate HasRejections(ds: seq<MappingDecision>) {
    exists d :: d in ds && d.decision.Rejected?
  }

  lemma {:induction false} ProtocolsAre(ds: seq<MappingDecision>, p: Protocol)
    ensures p in ProtocolsOf(ds) <==> exists d :: d in ds && d.decision == Supported(p)
    decreases |ds|
  {
    if ds != [] {
      SplitLast(ds);
      ProtocolsAre(ds[..|ds| - 1], p);
    }
  }

  ghost function ParsedReply(r: Reply): Option<Model> {
    match r
    case Unusable => None
    case Document(items) => ParsedModel(items)
  }

  method Read(r: Reply) returns (m: Option<Model>)
    ensures m == ParsedReply(r)
  {
    match r {
      case Unusable => m := None;
      case Document(items) => m := ParseModel(items);
    }
  }

  /** Where the loop ends: Crashed when the protocol constructor raises; failed when a repair
      reply was unusable. */
  datatype Ending = Crashed | Ended(model: Model, repairs: nat, failed: bool)

  ghost predicate AsksRepair(j: Gates, m: Model, repairs: nat, limit: nat) {
    var ds := Judged(j, m.candidates);
    ProtocolsOf(ds) == [] && HasRejections(ds) && repairs < limit
  }

  ghost function EndingFrom(j: Gates, replies: Replies, m: Model, repairs: nat, limit: nat): Ending
    decreases limit - repairs
  {
    if SomeRaise(j, m.candidates) then Crashed
    else if !AsksRepair(j, m, repairs, limit) then Ended(m, repairs, false)
    else
      match ParsedReply(replies(repairs + 1))
      case None => Ended(m, repairs + 1, true)
      case Some(next) => EndingFrom(j, replies, next, repairs + 1, limit)
  }

  method RepairLoop(
        b: Boundary, ghost j: Gates, replies: Replies, first: Model, limit: nat)
          returns (e: Ending, ds: seq<MappingDecision>)
    requires GatesOf(b, j)
    ensures e == EndingFrom(j, replies, first, 0, limit)
    ensures e.Ended? ==> ds == Judged(j, e.model.candidates)
  {
    ghost var end := EndingFrom(j, replies, first, 0, limit);
    var model, repairs := first, 0;
    var raised;
    raised, ds := ResolveAndValidate(b, j, model.candidates);
    var stopped := false;
    while !raised && !stopped && ProtocolsOf(ds) == [] && HasRejections(ds) && repairs < limit
      invariant raised <==> SomeRaise(j, model.candidates)
      invariant !raised ==> ds == Judged(j, model.candidates)
      invariant stopped ==> !raised && end == Ended(model, repairs, true)
      invariant !stopped ==> repairs <= limit && end == EndingFrom(j, replies, model, repairs, limit)
      decreases limit - repairs, !stopped
    {
      assert AsksRepair(j, model, repairs, limit);
      var next := Read(replies(repairs + 1));
      repairs := repairs + 1;
      if next.None? {
        stopped := true;
      } else {
        model := next.value;
        raised, ds := ResolveAndValidate(b, j, model.candidates);
      }
    }
    e := if raised then Crashed else Ended(model, repairs, stopped);
  }

  /** The reply the final model came from. */
  function LastRead(e: Ending): nat
    requires e.Ended? && (e.failed ==> e.repairs > 0)
  {
    if e.failed then e.repairs - 1 else e.repairs
  }

  ghost predicate AllRejected(j: Gates, m: Model) {
    m.candidates != [] && forall c :: c in m.candidates ==> FinalDecision(j, c).Rejected?
  }

  /** A repair is asked for exactly when every candidate was rejected and there was one, and the
      limit is not used up. */
  lemma RepairMeansAllRejected(j: Gates, m: Model, repairs: nat, limit: nat)
    requires !SomeRaise(j, m.candidates)
    ensures AsksRepair(j, m, repairs, limit) <==> AllRejected(j, m) && repairs < limit
  {
    var ds := Judged(j, m.candidates);
    forall c | c in m.candidates
      ensures MappingOf(j, c) in ds
      ensures FinalDecision(j, c).Supported? ==> FinalDecision(j, c).protocol in ProtocolsOf(ds)
    {
      JudgedMembers(j, m.candidates, MappingOf(j, c));
      if FinalDecision(j, c).Supported? { ProtocolsAre(ds, FinalDecision(j, c).protocol); }
    }
    if HasRejections(ds) {
      var d :| d in ds && d.decision.Rejected?;
      JudgedMembers(j, m.candidates, d);
    }
    if ProtocolsOf(ds) != [] {
      var p := ProtocolsOf(ds)[0];
      ProtocolsAre(ds, p);
      var d :| d in ds && d.decision == Supported(p);
      JudgedMembers(j, m.candidates, d);
    }
    if AllRejected(j, m) {
      assert MappingOf(j, m.candidates[0]) in ds;
    }
  }

  ghost predicate RejectedAt(j: Gates, replies: Replies, i: nat) {
    ParsedReply(replies(i)).Some? && AllRejected(j, ParsedReply(replies(i)).value)
  }

  /** The replies behind an ending: every reply up to the last one read parsed, all models before
      the last were rejected altogether, and the last one either needs no repair, or used up the
      limit, or met an unusable reply. */
  ghost predicate EndsWell(j: Gates, replies: Replies, k: nat, limit: nat, e: Ending) {
    && e.Ended? && k <= e.repairs <= limit && (e.failed ==> e.repairs > k)
    && ParsedReply(replies(LastRead(e))) == Some(e.model) && !SomeRaise(j, e.model.candidates)
    && (if e.failed then ParsedReply(replies(e.repairs)).None? && AllRejected(j, e.model)
        else !AllRejected(j, e.model) || e.repairs == limit)
    && forall i :: k <= i < LastRead(e) ==> RejectedAt(j, replies, i)
  }

  lemma {:induction false} EndingMeaning(j: Gates, replies: Replies, m: Model, k: nat, limit: nat)
    requires k <= limit && ParsedReply(replies(k)) == Some(m)
    requires EndingFrom(j, replies, m, k, limit).Ended?
    ensures EndsWell(j, replies, k, limit, EndingFrom(j, replies, m, k, limit))
    decreases limit - k
  {
    RepairMeansAllRejected(j, m, k, limit);
    if !AsksRepair(j, m, k, limit) {
      EndsHere(j, replies, m, k, limit);
    } else if ParsedReply(replies(k + 1)).None? {
      FailsHere(j, replies, m, k, limit);
    } else {
      EndingMeaning(j, replies, ParsedReply(replies(k + 1)).value, k + 1, limit);
      EndsEarlier(j, replies, k, limit, EndingFrom(j, replies, m, k, limit));
    }
  }

  lemma EndsHere(j: Gates, replies: Replies, m: Model, k: nat, limit: nat)
    requires k <= limit && ParsedReply(replies(k)) == Some(m) && !SomeRaise(j, m.candidates)
    requires !AllRejected(j, m) || k == limit
    ensures EndsWell(j, replies, k, limit, Ended(m, k, false))
  {}

  lemma FailsHere(j: Gates, replies: Replies, m: Model, k: nat, limit: nat)
    requires k < limit && ParsedReply(replies(k)) == Some(m) && !SomeRaise(j, m.candidates)
    requires AllRejected(j, m) && ParsedReply(replies(k + 1)).None?
    ensures EndsWell(j, replies, k, limit, Ended(m, k + 1, true))
  {}

  lemma EndsEarlier(j: Gates, replies: Replies, k: nat, limit: nat, e: Ending)
    requires EndsWell(j, replies, k + 1, limit, e) && RejectedAt(j, replies, k)
    ensures EndsWell(j, replies, k, limit, e)
  {
    forall i | k <= i < LastRead(e) ensures RejectedAt(j, replies, i) {
      assert i == k || k + 1 <= i;
    }
  }

  // ---------- the stage ----------

  datatype Status = NotRun | Unsupported | Unavailable | Abstaining | HasFindings | SupportedNoFinding

  datatype Stage = Stage(
    status: Status, model: Option<Model>, decisions: seq<MappingDecision>, lifecycle: Option<Result>,
    repairs: nat, repairFailed: bool, findings: seq<Finding>)

  function EmptyStage(status: Status): Stage {
    Stage(status, None, [], None, 0, false, [])
  }

  const REPAIR_CAP: nat := 3

  function Distance(a: int, b: int): nat {
    if a <= b then b - a else a - b
  }

  /** max(0, min(max_repairs, 3)): the allowed limit nearest to the requested one. */
  function RepairLimit(maxRepairs: int): (r: nat)
    ensures r <= REPAIR_CAP
    ensures forall k: nat :: k <= REPAIR_CAP && k != r ==> Distance(r, maxRepairs) < Distance(k, maxRepairs)
  {
    if maxRepairs < 0 then 0 else if maxRepairs > REPAIR_CAP then REPAIR_CAP else maxRepairs
  }

  function StatusOf(failed: bool, findings: seq<Finding>, protocols: seq<Protocol>): Status {
    if failed then Abstaining
    else if findings != [] then HasFindings
    else if protocols != [] then SupportedNoFinding
    else Abstaining
  }

  ghost function LifecycleOf(b: Boundary, protocols: seq<Protocol>): Result {
    ReportOf(b.t, b.index, GraphIn(b), SortOps(b.ir.operations), protocols, Result([], |protocols|, 0, 0, []))
  }

  ghost function StageAfter(b: Boundary, j: Gates, e: Ending): Stage
    requires e.Ended?
  {
    var ds := Judged(j, e.model.candidates);
    var lifecycle := LifecycleOf(b, ProtocolsOf(ds));
    Stage(StatusOf(e.failed, lifecycle.findings, ProtocolsOf(ds)), Some(e.model), ds, Some(lifecycle), e.repairs,
      e.failed, lifecycle.findings)
  }

  /** The stage of a run on a non-empty IR; None when the protocol constructor's exception
      escapes. */
  ghost function StageOf(b: Boundary, j: Gates, replies: Replies, limit: nat): Option<Stage> {
    match ParsedReply(replies(0))
    case None => Some(EmptyStage(Unavailable))
    case Some(first) =>
      var e := EndingFrom(j, replies, first, 0, limit);
      if e.Crashed? then None else Some(StageAfter(b, j, e))
  }

  /** The identity of a finding for merging: rule, file, line and message. */
  type FindingKey = nat

  class AnalysisSession {
    const ir: Option<SemanticIR>
    var stage: Stage
    var findings: seq<FindingKey>

    constructor (ir: Option<SemanticIR>, findings: seq<FindingKey>)
      ensures this.ir == ir && this.findings == findings && stage == EmptyStage(NotRun)
    {
      this.ir := ir;
      this.findings := findings;
      stage := EmptyStage(NotRun);
    }

    /** run_project_reader.  facts is the inventory of the IR; raised tells whether the protocol
        constructor's exception escaped, which leaves the session as it was. */
    method RunProjectReader(
        t: LifecycleText, index: Index, facts: seq<Fact>, replies: Replies, maxRepairs: int,
        keyOf: Finding -> FindingKey, ghost j: Gates)
      returns (raised: bool)
      requires ir.Some? ==> GatesOf(Boundary(t, index, ir.value, facts), j)
      modifies this
      ensures ir.None? || ir.value.operations == [] ==>
                !raised && stage == EmptyStage(Unsupported) && findings == old(findings)
      ensures ir.Some? && ir.value.operations != [] ==>
                var expected := StageOf(Boundary(t, index, ir.value, facts), j, replies, RepairLimit(maxRepairs));
                && (raised <==> expected.None?)
                && (raised ==> stage == old(stage) && findings == old(findings))
                && (!raised ==>
                      && stage == expected.value
                      && findings == Merge(old(findings), MapSeq(keyOf, expected.value.findings)))
    {
      raised := false;
      if ir.None? || ir.value.operations == [] {
        stage := EmptyStage(Unsupported);
        return;
      }
      var b := Boundary(t, index, ir.value, facts);
      var first := Read(replies(0));
      if first.None? {
        stage := EmptyStage(Unavailable);
        return;
      }
      var e, ds := RepairLoop(b, j, replies, first.value, RepairLimit(maxRepairs));
      if e.Crashed? {
        return true;
      }
      var protocols := ProtocolsOf(ds);
      var lifecycle := Analyze(t, index, ir.value, protocols);
      var keys := MapSeq(keyOf, lifecycle.findings);
      stage := Stage(StatusOf(e.failed, lifecycle.findings, protocols), Some(e.model), ds, Some(lifecycle), e.repairs,
        e.failed, lifecycle.findings);
      MergeFindings(keys);
    }

    /** _merge_project_reader_findings */
    method MergeFindings(keys: seq<FindingKey>)
      modifies this`findings
      ensures findings == Merge(old(findings), keys)
    {
      var known := SetOf(findings);
      ghost var before := findings;
      for i := 0 to |keys|
        invariant findings == Merge(before, keys[..i])
        invariant known == SetOf(findings)
      {
        assert keys[..i + 1][..i] == keys[..i];
        if keys[i] !in known {
          findings := findings + [keys[i]];
          known := known + {keys[i]};
        }
      }
      assert keys[..|keys|] == keys;
    }
  }

  // ---------- the trust boundary ----------

  /** Whatever the model replies: repairs stay within min(max_repairs, 3), every candidate of the
      current model gets exactly one decision, and a run that reaches the analyzer abstains
      exactly when no protocol was supported. */
  lemma RunIsBounded(b: Boundary, j: Gates, replies: Replies, limit: nat)
    requires StageOf(b, j, replies, limit).Some? && StageOf(b, j, replies, limit).value.lifecycle.Some?
    ensures var s := StageOf(b, j, replies, limit).value;
            && s.repairs <= limit && s.model.Some?
            && multiset(s.decisions) == EachDecision(j, s.model.value.candidates)
            && (s.status.Abstaining? <==> ProtocolsOf(s.decisions) == [])
            && (s.status.HasFindings? <==> s.findings != [])
            && (s.status.SupportedNoFinding? <==> ProtocolsOf(s.decisions) != [] && s.findings == [])
  {
    var first := ParsedReply(replies(0)).value;
    var e := EndingFrom(j, replies, first, 0, limit);
    EndingMeaning(j, replies, first, 0, limit);
    EveryCandidateIsDecidedOnce(j, e.model.candidates);
    RepairMeansAllRejected(j, e.model, 0, 1);
    var protocols := ProtocolsOf(Judged(j, e.model.candidates));
    if protocols == [] { assert LifecycleOf(b, protocols).findings == []; }
  }

  /** An unprotected acquisition of the finding's protocol. */
  ghost predicate Witnessed(b: Boundary, f: Finding) {
    && f.acquire in Acquisitions(b.t, b.index, GraphIn(b).ops, SortOps(b.ir.operations), f.protocol)
    && VerdictOf(b.t, GraphIn(b), SortOps(b.ir.operations), f.protocol, f.acquire) == Unprotected(f.use, f.cleanups)
  }

  lemma LifecycleFindings(b: Boundary, protocols: seq<Protocol>, f: Finding)
    requires f in LifecycleOf(b, protocols).findings
    ensures f.protocol in protocols && Witnessed(b, f)
  {
    FindingsAreExact(b.t, b.index, GraphIn(b), SortOps(b.ir.operations), protocols, Result([], |protocols|, 0, 0, []));
    assert Grounded(b.t, b.index, GraphIn(b), SortOps(b.ir.operations), protocols, f);
  }

  lemma StageFindings(b: Boundary, j: Gates, replies: Replies, limit: nat)
    requires StageOf(b, j, replies, limit).Some? && StageOf(b, j, replies, limit).value.findings != []
    ensures var s := StageOf(b, j, replies, limit).value;
            && s.model.Some? && s.decisions == Judged(j, s.model.value.candidates)
            && s.findings == LifecycleOf(b, ProtocolsOf(s.decisions)).findings
  {}

  /** Every finding comes from a supported protocol, at an unprotected acquisition of it, and the
      protocol is grounded in the program: a real primary call, and for each of its cleanup
      methods a reachable DEFER in the call's scope. */
  lemma FindingsAreGrounded(b: Boundary, j: Gates, replies: Replies, limit: nat, f: Finding)
    requires GatesOf(b, j) && StageOf(b, j, replies, limit).Some?
    requires f in StageOf(b, j, replies, limit).value.findings
    ensures f.protocol in ProtocolsOf(StageOf(b, j, replies, limit).value.decisions) && Witnessed(b, f)
    ensures exists op: Op :: GroundedAt(b.t, GraphIn(b), f.protocol, op)
  {
    StageFindings(b, j, replies, limit);
    var s := StageOf(b, j, replies, limit).value;
    LifecycleFindings(b, ProtocolsOf(s.decisions), f);
    SupportedProtocolIsGrounded(b, j, s.model.value.candidates, f.protocol);
  }

  lemma SupportedProtocolIsGrounded(b: Boundary, j: Gates, cs: seq<Candidate>, p: Protocol)
    requires GatesOf(b, j) && p in ProtocolsOf(Judged(j, cs))
    ensures exists op: Op :: GroundedAt(b.t, GraphIn(b), p, op)
  {
    ProtocolsAre(Judged(j, cs), p);
    var d :| d in Judged(j, cs) && d.decision == Supported(p);
    JudgedMembers(j, cs, d);
    var c :| c in cs && d == MappingOf(j, c);
    assert GatesAt(b, j, c);
    SupportedIsGrounded(b.t, b.index, GraphIn(b), FactsById(b.facts), j.resolve(c).candidate);
  }
}
