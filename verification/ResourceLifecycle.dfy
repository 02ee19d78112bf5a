/** Cleanup-before-use verdicts (ResourceLifecycleAnalyzer, smartbench/analysis/resource_lifecycle.py). */
module ResourceLifecycle {
  import opened Sequences
  import opened Multisets
  import opened Walks
  import opened Ir
  import opened ControlFlow
  import opened Dominance
  import opened TypeEvidence

  datatype MatchMode = ExactMode | MethodShape | TypedMethod

  datatype Protocol = Protocol(
    acquireSymbol: string, resultIndex: nat, cleanupMethods: seq<string>, mode: MatchMode, memberPath: string,
    receiverType: string, canonicalAcquire: string, typeEvidenceIds: seq<Id>, evidenceFactIds: seq<Id>)

  /** The string readers of the analyzer; any functions will do.  memberPath is None when the
      receiver does not belong to the binding. */
  datatype LifecycleText = LifecycleText(
    memberPath: (Op, string) -> Option<string>,
    methodName: Op -> string,
    symbolLeaf: string -> string,
    dotted: string -> bool,
    usesResource: (Op, string, string) -> bool,
    returned: Op -> set<string>,
    normalizeType: string -> string)

  // ---------- acquisitions ----------

  /** _is_primary_result_call */
  predicate IsPrimaryResultCall(ops: map<Id, Op>, op: Op) {
    && op.kind.Call? && op.resultTargets != []
    && op.host in ops && ops[op.host].kind.Assign?
    && ops[op.host].calls != [] && ops[op.host].calls[0] == op.target
  }

  /** _matches_acquire */
  predicate MatchesAcquire(t: LifecycleText, index: Index, p: Protocol, op: Op) {
    if p.mode.ExactMode? then op.target == p.acquireSymbol
    else
      && t.dotted(op.target) && t.dotted(p.acquireSymbol)
      && t.methodName(op) == t.symbolLeaf(p.acquireSymbol)
      && if p.mode.MethodShape? then ForOperation(index, op.id, Receiver) == []
         else
           && Compatible(t.normalizeType, p.receiverType, UniqueType(index, op.id, Receiver))
           && CanonicalSymbols(index, op.id) == {p.canonicalAcquire}
  }

  function Acquisitions(t: LifecycleText, index: Index, ops: map<Id, Op>, ordered: seq<Op>, p: Protocol): (r: seq<Op>)
    ensures forall op :: op in r <==>
              op in ordered && op.kind.Call? && MatchesAcquire(t, index, p, op) && IsPrimaryResultCall(ops, op)
  {
    Filter((op: Op) => op.kind.Call? && MatchesAcquire(t, index, p, op) && IsPrimaryResultCall(ops, op), ordered)
  }

  predicate UsableBinding(binding: string) {
    binding != "" && binding != "_"
  }

  // ---------- what one acquisition's verdict says ----------

  /** One acquisition under one protocol, with its usable binding. */
  datatype Site = Site(protocol: Protocol, acquire: Op, binding: string)

  /** The parts operations play at a site. */
  datatype Part = Cleanup | Transfer | Use

  ghost predicate IsCleanup(t: LifecycleText, g: Graph, s: Site, op: Op) {
    && op.scope == s.acquire.scope && op.kind.Defer?
    && t.memberPath(op, s.binding) == Some(s.protocol.memberPath)
    && t.methodName(op) in s.protocol.cleanupMethods
    && Reach(Rel(g), s.acquire.id, op.id)
  }

  ghost predicate IsTransfer(t: LifecycleText, g: Graph, s: Site, op: Op) {
    && op.scope == s.acquire.scope && op.kind.Return? && s.binding in t.returned(op)
    && Reach(Rel(g), s.acquire.id, op.id)
  }

  ghost predicate IsUse(t: LifecycleText, g: Graph, s: Site, op: Op) {
    && op.scope == s.acquire.scope && op.id != s.acquire.id && op.id != s.acquire.host
    && !(op.kind.Call? && op.host != NO_ID)
    && !IsCleanup(t, g, s, op)
    && t.usesResource(op, s.binding, s.protocol.memberPath)
    && Reach(Rel(g), s.acquire.id, op.id)
  }

  ghost predicate Plays(t: LifecycleText, g: Graph, s: Site, part: Part, op: Op) {
    match part
    case Cleanup => IsCleanup(t, g, s, op)
    case Transfer => IsTransfer(t, g, s, op)
    case Use => IsUse(t, g, s, op)
  }

  /** The operations that play a part, in source order. */
  ghost function Cast(t: LifecycleText, g: Graph, s: Site, part: Part, ordered: seq<Op>): seq<Op>
    decreases |ordered|
  {
    if ordered == [] then []
    else
      var last := ordered[|ordered| - 1];
      Cast(t, g, s, part, ordered[..|ordered| - 1]) + (if Plays(t, g, s, part, last) then [last] else [])
  }

  lemma {:induction false} CastMembers(t: LifecycleText, g: Graph, s: Site, part: Part, ordered: seq<Op>)
    ensures forall op :: op in Cast(t, g, s, part, ordered) <==> op in ordered && Plays(t, g, s, part, op)
    decreases |ordered|
  {
    if ordered != [] {
      SplitLast(ordered);
      CastMembers(t, g, s, part, ordered[..|ordered| - 1]);
    }
  }

  /** Some one cleanup lies on every walk from the acquisition to the use. */
  ghost predicate Protected(g: Graph, acquire: Id, cleanups: seq<Op>, use: Id) {
    exists c :: c in cleanups && Reach(Rel(g), acquire, c.id) && Reach(Rel(g), c.id, use) &&
                DominatesBetweenSpec(g, acquire, c.id, use)
  }

  ghost function FirstUnprotected(g: Graph, acquire: Id, cleanups: seq<Op>, uses: seq<Op>): Option<Op> {
    if uses == [] then None
    else if !Protected(g, acquire, cleanups, uses[0].id) then Some(uses[0])
    else FirstUnprotected(g, acquire, cleanups, uses[1..])
  }

  datatype Reason = NoAcquire | NoResult | UnusableResult | OwnershipTransferred | NoReachableUse

  datatype Verdict = Clean | Unprotected(use: Op, cleanups: seq<Op>) | Abstain(reason: Reason)

  ghost function VerdictAt(t: LifecycleText, g: Graph, ordered: seq<Op>, s: Site): Verdict {
    var cleanups := Cast(t, g, s, Cleanup, ordered);
    var uses := Cast(t, g, s, Use, ordered);
    if Cast(t, g, s, Transfer, ordered) != [] then Abstain(OwnershipTransferred)
    else if uses == [] then Abstain(NoReachableUse)
    else
      match FirstUnprotected(g, s.acquire.id, cleanups, uses)
      case Some(use) => Unprotected(use, cleanups)
      case None => Clean
  }

  /** The verdict the analyzer must reach for an acquisition. */
  ghost function VerdictOf(t: LifecycleText, g: Graph, ordered: seq<Op>, p: Protocol, acquire: Op): Verdict {
    if p.resultIndex >= |acquire.resultTargets| then Abstain(NoResult)
    else if !UsableBinding(acquire.resultTargets[p.resultIndex]) then Abstain(UnusableResult)
    else VerdictAt(t, g, ordered, Site(p, acquire, acquire.resultTargets[p.resultIndex]))
  }

  lemma {:induction false} FirstUnprotectedMeaning(g: Graph, acquire: Id, cleanups: seq<Op>, uses: seq<Op>)
    ensures var first := FirstUnprotected(g, acquire, cleanups, uses);
            && (first.None? <==> forall u :: u in uses ==> Protected(g, acquire, cleanups, u.id))
            && (first.Some? ==> exists i ::
                  && 0 <= i < |uses| && uses[i] == first.value && !Protected(g, acquire, cleanups, uses[i].id)
                  && forall j :: 0 <= j < i ==> Protected(g, acquire, cleanups, uses[j].id))
    decreases |uses|
  {
    if uses != [] && Protected(g, acquire, cleanups, uses[0].id) {
      FirstUnprotectedMeaning(g, acquire, cleanups, uses[1..]);
      var first := FirstUnprotected(g, acquire, cleanups, uses[1..]);
      if first.Some? {
        var i :| 0 <= i < |uses[1..]| && uses[1..][i] == first.value &&
          !Protected(g, acquire, cleanups, uses[1..][i].id) &&
                 forall j :: 0 <= j < i ==> Protected(g, acquire, cleanups, uses[1..][j].id);
        assert uses[i + 1] == first.value;
        forall j | 0 <= j < i + 1 ensures Protected(g, acquire, cleanups, uses[j].id) {
          if j > 0 { assert uses[j] == uses[1..][j - 1]; }
        }
      }
    }
  }

  /** For a reachable use and cleanups other than the two ends, the three tests of the analyzer
      say exactly: one of the cleanups is on every walk. */
  lemma ProtectedMeansOneOnEveryWalk(g: Graph, acquire: Id, cleanups: seq<Op>, use: Id)
    requires WellFormed(g) && Reach(Rel(g), acquire, use)
    requires forall c :: c in cleanups ==> c.id != acquire && c.id != use && Reach(Rel(g), acquire, c.id)
    ensures Protected(g, acquire, cleanups, use) <==> exists c ::
            c in cleanups && EveryWalkVisits(g, acquire, c.id, use)
  {
    ReachKeepsScope(g, acquire, use);
    forall c | c in cleanups ensures DominatesBetweenSpec(g, acquire, c.id, use) <==>
      EveryWalkVisits(g, acquire, c.id, use)
                             ensures DominatesBetweenSpec(g, acquire, c.id, use) ==> Reach(Rel(g), c.id, use) {
      ReachKeepsScope(g, acquire, c.id);
      if DominatesBetweenSpec(g, acquire, c.id, use) { DominatorLiesBetween(g, acquire, c.id, use); }
    }
  }

  /** The operations of a graph are those of the ordered list. */
  ghost predicate Describes(g: Graph, ordered: seq<Op>) {
    && WellFormed(g) && UniqueIds(ordered)
    && (forall op :: op in ordered ==> op.id in g.ops && g.ops[op.id] == op)
  }

  lemma SiteFacts(t: LifecycleText, g: Graph, ordered: seq<Op>, s: Site, use: Op)
    requires Describes(g, ordered) && s.acquire in ordered && s.acquire.kind.Call?
    requires use in Cast(t, g, s, Use, ordered)
    ensures Reach(Rel(g), s.acquire.id, use.id)
    ensures forall c :: c in Cast(t, g, s, Cleanup, ordered) ==>
              c.id != s.acquire.id && c.id != use.id && Reach(Rel(g), s.acquire.id, c.id)
  {
    CastMembers(t, g, s, Use, ordered);
    CastMembers(t, g, s, Cleanup, ordered);
    forall c | c in Cast(t, g, s, Cleanup, ordered) ensures c.id != s.acquire.id && c.id != use.id {
      assert g.ops[c.id] == c;
    }
  }

  /** A clean verdict: on every walk from the acquisition to any use, some cleanup is registered;
      indeed one and the same for all walks to that use. */
  lemma CleanMeansEveryUseIsCovered(t: LifecycleText, g: Graph, ordered: seq<Op>, s: Site)
    requires Describes(g, ordered) && s.acquire in ordered && s.acquire.kind.Call?
    requires VerdictAt(t, g, ordered, s).Clean?
    ensures forall use :: use in Cast(t, g, s, Use, ordered) ==>
              exists c :: c in Cast(t, g, s, Cleanup, ordered) && EveryWalkVisits(g, s.acquire.id, c.id, use.id)
  {
    var cleanups, uses := Cast(t, g, s, Cleanup, ordered), Cast(t, g, s, Use, ordered);
    FirstUnprotectedMeaning(g, s.acquire.id, cleanups, uses);
    forall use | use in uses ensures exists c :: c in cleanups && EveryWalkVisits(g, s.acquire.id, c.id, use.id) {
      SiteFacts(t, g, ordered, s, use);
      ProtectedMeansOneOnEveryWalk(g, s.acquire.id, cleanups, use.id);
    }
  }

  lemma {:induction false} CastInOrder(t: LifecycleText, g: Graph, s: Site, part: Part, ordered: seq<Op>)
    requires SortedBy(OpLeq, ordered)
    ensures SortedBy(OpLeq, Cast(t, g, s, part, ordered))
    decreases |ordered|
  {
    if ordered != [] {
      var n := |ordered| - 1;
      var rest := Cast(t, g, s, part, ordered[..n]);
      CastInOrder(t, g, s, part, ordered[..n]);
      CastMembers(t, g, s, part, ordered[..n]);
      forall i | 0 <= i < |rest| ensures OpLeq(rest[i], ordered[n]) {
        assert rest[i] in rest;
        var j :| 0 <= j < n && ordered[..n][j] == rest[i];
      }
    }
  }

  /** One of the cleanups is on every walk from the acquisition to the use. */
  ghost predicate Covered(g: Graph, acquire: Id, cleanups: seq<Op>, use: Id) {
    exists c :: c in cleanups && EveryWalkVisits(g, acquire, c.id, use)
  }

  /** A finding on a program: the reported use is a reachable use, every cleanup candidate is
      missed by some walk to it, and every other use that is not covered comes after it in the
      order of the source. */
  lemma FindingMeansEachCleanupIsAvoidable(t: LifecycleText, ir: SemanticIR, s: Site)
    requires UniqueIds(ir.operations) && s.acquire in ir.operations && s.acquire.kind.Call?
    requires VerdictAt(t, GraphOfIr(ir, {}), SortOps(ir.operations), s).Unprotected?
    ensures var g, v := GraphOfIr(ir, {}), VerdictAt(t, GraphOfIr(ir, {}), SortOps(ir.operations), s);
            && (forall c :: c in v.cleanups <==> c in ir.operations && IsCleanup(t, g, s, c))
            && v.use in ir.operations && IsUse(t, g, s, v.use)
            && (forall c :: c in v.cleanups ==> !EveryWalkVisits(g, s.acquire.id, c.id, v.use.id))
            && forall u :: u in ir.operations && IsUse(t, g, s, u) && !Covered(g, s.acquire.id, v.cleanups, u.id) ==>
                 OpLeq(v.use, u)
  {
    var g, ordered := GraphOfIr(ir, {}), SortOps(ir.operations);
    AnalyzedGraphDescribes(ir);
    SortOpsInOrder(ir.operations);
    CastInOrder(t, g, s, Use, ordered);
    CastMembers(t, g, s, Use, ordered);
    CastMembers(t, g, s, Cleanup, ordered);
    var v, uses := VerdictAt(t, g, ordered, s), Cast(t, g, s, Use, ordered);
    var i := FirstUncoveredUse(t, g, ordered, s);
    forall u | u in uses && !Covered(g, s.acquire.id, v.cleanups, u.id) ensures OpLeq(v.use, u) {
      var j :| 0 <= j < |uses| && uses[j] == u;
      assert j >= i;
      assert OpLeq(u, u);
    }
  }

  /** The reported use is the first one, in the analyzer's order, that no cleanup covers. */
  lemma FirstUncoveredUse(t: LifecycleText, g: Graph, ordered: seq<Op>, s: Site) returns (i: nat)
    requires Describes(g, ordered) && s.acquire in ordered && s.acquire.kind.Call?
    requires VerdictAt(t, g, ordered, s).Unprotected?
    ensures var v := VerdictAt(t, g, ordered, s);
            var uses := Cast(t, g, s, Use, ordered);
            && v.cleanups == Cast(t, g, s, Cleanup, ordered)
            && i < |uses| && uses[i] == v.use && !Covered(g, s.acquire.id, v.cleanups, v.use.id)
            && forall j :: 0 <= j < i ==> Covered(g, s.acquire.id, v.cleanups, uses[j].id)
  {
    var v := VerdictAt(t, g, ordered, s);
    var cleanups, uses := Cast(t, g, s, Cleanup, ordered), Cast(t, g, s, Use, ordered);
    FirstUnprotectedMeaning(g, s.acquire.id, cleanups, uses);
    forall use | use in uses
      ensures Reach(Rel(g), s.acquire.id, use.id)
      ensures Protected(g, s.acquire.id, cleanups, use.id) <==> Covered(g, s.acquire.id, cleanups, use.id)
    {
      SiteFacts(t, g, ordered, s, use);
      ProtectedMeansOneOnEveryWalk(g, s.acquire.id, cleanups, use.id);
    }
    i :| 0 <= i < |uses| && uses[i] == v.use && !Protected(g, s.acquire.id, cleanups, uses[i].id) &&
         forall j :: 0 <= j < i ==> Protected(g, s.acquire.id, cleanups, uses[j].id);
    assert uses[i] in uses;
    forall j | 0 <= j < i ensures Covered(g, s.acquire.id, cleanups, uses[j].id) {
      assert uses[j] in uses;
    }
  }

  /** A RETURN of the acquisition's scope, reached from it, hands the binding to the caller. */
  ghost predicate ReturnsBinding(t: LifecycleText, ir: SemanticIR, acquire: Op, binding: string) {
    exists op :: op in ir.operations && op.kind == Return && op.scope == acquire.scope && binding in t.returned(op) &&
                 Reach(Rel(GraphOfIr(ir, {})), acquire.id, op.id)
  }

  /** The verdict on an acquisition with a usable binding is about ownership exactly when a reachable RETURN
      of its scope returns the binding. */
  lemma TransferAbstainsIff(t: LifecycleText, ir: SemanticIR, p: Protocol, acquire: Op)
    requires p.resultIndex < |acquire.resultTargets|
    requires acquire.resultTargets[p.resultIndex] != "" && acquire.resultTargets[p.resultIndex] != "_"
    ensures VerdictOf(t, GraphOfIr(ir, {}), SortOps(ir.operations), p, acquire) == Abstain(OwnershipTransferred)
            <==> ReturnsBinding(t, ir, acquire, acquire.resultTargets[p.resultIndex])
  {
    var g, ordered, s := GraphOfIr(ir, {}), SortOps(ir.operations),
    Site(p, acquire, acquire.resultTargets[p.resultIndex]);
    CastMembers(t, g, s, Transfer, ordered);
    var transfers := Cast(t, g, s, Transfer, ordered);
    if transfers != [] { assert transfers[0] in transfers; }
    if ReturnsBinding(t, ir, acquire, s.binding) {
      var op :| op in ir.operations && op.kind == Return && op.scope == acquire.scope && s.binding in t.returned(op) &&
                Reach(Rel(g), acquire.id, op.id);
      assert op in ordered && Plays(t, g, s, Transfer, op);
    }
  }

  /** The other verdicts on a usable binding that stays in its scope: without a use an abstention, else
      clean or a finding as every use has a cleanup on every walk or not. */
  lemma VerdictMeaning(t: LifecycleText, ir: SemanticIR, p: Protocol, acquire: Op)
    requires UniqueIds(ir.operations) && acquire in ir.operations && acquire.kind.Call?
    requires p.resultIndex < |acquire.resultTargets|
    requires acquire.resultTargets[p.resultIndex] != "" && acquire.resultTargets[p.resultIndex] != "_"
    requires !ReturnsBinding(t, ir, acquire, acquire.resultTargets[p.resultIndex])
    ensures var g, s := GraphOfIr(ir, {}), Site(p, acquire, acquire.resultTargets[p.resultIndex]);
            var v, cleanups := VerdictOf(t, g, SortOps(ir.operations), p, acquire),
                               Cast(t, g, s, Cleanup, SortOps(ir.operations));
            && (v == Abstain(NoReachableUse) <==> forall u :: u in ir.operations ==> !IsUse(t, g, s, u))
            && (v.Unprotected? <==> exists u ::
                  u in ir.operations && IsUse(t, g, s, u) && !Covered(g, acquire.id, cleanups, u.id))
            && (v.Clean? || v.Unprotected? || v == Abstain(NoReachableUse))
  {
    var g, ordered, s := GraphOfIr(ir, {}), SortOps(ir.operations),
    Site(p, acquire, acquire.resultTargets[p.resultIndex]);
    TransferAbstainsIff(t, ir, p, acquire);
    AnalyzedGraphDescribes(ir);
    SiteMeaning(t, g, ordered, s);
  }

  lemma SiteMeaning(t: LifecycleText, g: Graph, ordered: seq<Op>, s: Site)
    requires Describes(g, ordered) && s.acquire in ordered && s.acquire.kind.Call?
    requires VerdictAt(t, g, ordered, s) != Abstain(OwnershipTransferred)
    ensures var v, cleanups := VerdictAt(t, g, ordered, s), Cast(t, g, s, Cleanup, ordered);
            && (v == Abstain(NoReachableUse) <==> forall u :: u in ordered ==> !IsUse(t, g, s, u))
            && (v.Unprotected? <==> exists u ::
                  u in ordered && IsUse(t, g, s, u) && !Covered(g, s.acquire.id, cleanups, u.id))
            && (v.Clean? || v.Unprotected? || v == Abstain(NoReachableUse))
  {
    CastMembers(t, g, s, Use, ordered);
    var cleanups, uses := Cast(t, g, s, Cleanup, ordered), Cast(t, g, s, Use, ordered);
    if uses != [] { assert uses[0] in uses; }
    FirstUnprotectedMeaning(g, s.acquire.id, cleanups, uses);
    forall u | u in uses
      ensures Protected(g, s.acquire.id, cleanups, u.id) <==> Covered(g, s.acquire.id, cleanups, u.id)
    {
      SiteFacts(t, g, ordered, s, u);
      ProtectedMeansOneOnEveryWalk(g, s.acquire.id, cleanups, u.id);
    }
  }

  ghost predicate CleanupFreeWalk(g: Graph, acquire: Id, cleanups: seq<Op>, use: Id) {
    exists p :: WalkFromTo(Rel(g), p, acquire, use) && |p| > 1 && forall c :: c in cleanups ==> c.id !in p
  }

  /** With at most one candidate, a finding is reported exactly when some walk reaches a use
      without any cleanup (and ownership stays in the scope). */
  lemma OneCandidateIsExact(t: LifecycleText, g: Graph, ordered: seq<Op>, s: Site)
    requires Describes(g, ordered) && s.acquire in ordered && s.acquire.kind.Call?
    requires |Cast(t, g, s, Cleanup, ordered)| <= 1 && Cast(t, g, s, Transfer, ordered) == []
    ensures VerdictAt(t, g, ordered, s).Unprotected? <==>
            exists use :: use in Cast(t, g, s, Use, ordered) &&
                          CleanupFreeWalk(g, s.acquire.id, Cast(t, g, s, Cleanup, ordered), use.id)
  {
    var cleanups, uses := Cast(t, g, s, Cleanup, ordered), Cast(t, g, s, Use, ordered);
    FirstUnprotectedMeaning(g, s.acquire.id, cleanups, uses);
    forall use | use in uses
      ensures !Protected(g, s.acquire.id, cleanups, use.id) <==> CleanupFreeWalk(g, s.acquire.id, cleanups, use.id)
    {
      SiteFacts(t, g, ordered, s, use);
      ProtectedMeansOneOnEveryWalk(g, s.acquire.id, cleanups, use.id);
      UncoveredByOne(g, s.acquire.id, cleanups, use.id);
    }
  }

  lemma UncoveredByOne(g: Graph, acquire: Id, cleanups: seq<Op>, use: Id)
    requires |cleanups| <= 1 && Reach(Rel(g), acquire, use)
    ensures (forall c :: c in cleanups ==> !EveryWalkVisits(g, acquire, c.id, use)) <==>
            CleanupFreeWalk(g, acquire, cleanups, use)
  {
    if forall c :: c in cleanups ==> !EveryWalkVisits(g, acquire, c.id, use) {
      if cleanups == [] {
        var p :| WalkFromTo(Rel(g), p, acquire, use) && |p| > 1;
      } else {
        assert cleanups[0] in cleanups;
        var p :| WalkFromTo(Rel(g), p, acquire, use) && |p| > 1 && cleanups[0].id !in p;
        assert forall c :: c in cleanups ==> c == cleanups[0];
      }
    }
  }

  // ---------- the analyzer ----------

  datatype Finding = Finding(
    protocol: Protocol, binding: string, acquire: Op, use: Op, cleanups: seq<Op>, typeEvidenceIds: seq<Id>)

  /** What an abstention's text is made from. */
  datatype UnknownReason = UnknownReason(protocol: Protocol, acquire: Option<Op>, reason: Reason)

  datatype Result = Result(
    findings: seq<Finding>, protocolsEvaluated: nat, acquisitionsEvaluated: nat, abstentions: nat,
    unknownReasons: seq<UnknownReason>)

  function BindingOf(p: Protocol, acquire: Op): string {
    if p.resultIndex < |acquire.resultTargets| then acquire.resultTargets[p.resultIndex] else ""
  }

  function Record(index: Index, r: Result, p: Protocol, acquire: Op, v: Verdict): Result {
    var counted := r.(acquisitionsEvaluated := r.acquisitionsEvaluated + 1);
    match v
    case Clean => counted
    case Unprotected(use, cleanups) =>
      counted.(findings := r.findings + [Finding(p, BindingOf(p, acquire), acquire, use, cleanups,
                                                 EvidenceIds(index, acquire.id, Receiver))])
    case Abstain(reason) =>
      counted.(abstentions := r.abstentions + 1,
               unknownReasons := r.unknownReasons + [UnknownReason(p, Some(acquire), reason)])
  }

  /** The report after a list of acquisitions of one protocol. */
  ghost function AfterSites(t: LifecycleText, index: Index, g: Graph, ordered: seq<Op>, p: Protocol,
          acquisitions: seq<Op>, r: Result): Result
    decreases |acquisitions|
  {
    if acquisitions == [] then r
    else
      var last := acquisitions[|acquisitions| - 1];
      Record(index, AfterSites(t, index, g, ordered, p, acquisitions[..|acquisitions| - 1], r), p, last,
        VerdictOf(t, g, ordered, p, last))
  }

  ghost function AfterProtocol(t: LifecycleText, index: Index, g: Graph, ordered: seq<Op>, p: Protocol,
          r: Result): Result {
    var acquisitions := Acquisitions(t, index, g.ops, ordered, p);
    if acquisitions ==
      [] then r.(abstentions := r.abstentions + 1, unknownReasons :=
        r.unknownReasons + [UnknownReason(p, None, NoAcquire)])
    else AfterSites(t, index, g, ordered, p, acquisitions, r)
  }

  /** The report the analyzer must produce. */
  ghost function ReportOf(t: LifecycleText, index: Index, g: Graph, ordered: seq<Op>, protocols: seq<Protocol>,
          r: Result): Result
    decreases |protocols|
  {
    if protocols == [] then r
    else AfterProtocol(t, index, g, ordered, protocols[|protocols| - 1],
      ReportOf(t, index, g, ordered, protocols[..|protocols| - 1], r))
  }

  /** One Cast list, as the comprehensions of analyze build it. */
  method Collect(t: LifecycleText, cfg: ControlFlowGraph, ordered: seq<Op>, s: Site, part: Part) returns (cast: seq<Op>)
    requires cfg.Valid()
    modifies cfg
    ensures cfg.Valid() && cast == Cast(t, cfg.graph, s, part, ordered)
  {
    cast := [];
    for i := 0 to |ordered|
      invariant cfg.Valid() && cast == Cast(t, cfg.graph, s, part, ordered[..i])
    {
      assert ordered[..i + 1][..i] == ordered[..i];
      var plays := TestPart(t, cfg, s, part, ordered[i]);
      if plays {
        cast := cast + [ordered[i]];
      }
    }
    assert ordered[..|ordered|] == ordered;
  }

  method TestPart(t: LifecycleText, cfg: ControlFlowGraph, s: Site, part: Part, op: Op) returns (r: bool)
    requires cfg.Valid()
    modifies cfg
    ensures cfg.Valid() && (r <==> Plays(t, cfg.graph, s, part, op))
  {
    var reached := cfg.Reachable(s.acquire.id, op.id);
    var cleanup := op.scope == s.acquire.scope && op.kind.Defer? &&
      t.memberPath(op, s.binding) == Some(s.protocol.memberPath)
      && t.methodName(op) in s.protocol.cleanupMethods && reached;
    match part {
      case Cleanup => r := cleanup;
      case Transfer => r := op.scope == s.acquire.scope && op.kind.Return? && s.binding in t.returned(op) && reached;
      case Use =>
        r := op.scope == s.acquire.scope && op.id != s.acquire.id && op.id != s.acquire.host
          && !(op.kind.Call? && op.host != NO_ID) && !cleanup
          && t.usesResource(op, s.binding, s.protocol.memberPath) && reached;
    }
  }

  method IsProtected(cfg: ControlFlowGraph, acquire: Id, cleanups: seq<Op>, use: Id) returns (r: bool)
    requires cfg.Valid()
    modifies cfg
    ensures cfg.Valid() && (r <==> Protected(cfg.graph, acquire, cleanups, use))
  {
    for i := 0 to |cleanups|
      invariant cfg.Valid()
      invariant forall j :: 0 <= j < i ==>
                !(Reach(Rel(cfg.graph), acquire, cleanups[j].id) && Reach(Rel(cfg.graph), cleanups[j].id, use) &&
                                            DominatesBetweenSpec(cfg.graph, acquire, cleanups[j].id, use))
    {
      var c := cleanups[i];
      var before := cfg.Reachable(acquire, c.id);
      var after := cfg.Reachable(c.id, use);
      var dominates := cfg.DominatesBetween(acquire, c.id, use);
      if before && after && dominates {
        assert c in cleanups;
        return true;
      }
    }
    return false;
  }

  method FindUnprotected(cfg: ControlFlowGraph, acquire: Id, cleanups: seq<Op>, uses: seq<Op>) returns (r: Option<Op>)
    requires cfg.Valid()
    modifies cfg
    ensures cfg.Valid() && r == FirstUnprotected(cfg.graph, acquire, cleanups, uses)
  {
    var i := 0;
    while i < |uses|
      invariant 0 <= i <= |uses| && cfg.Valid()
      invariant FirstUnprotected(cfg.graph, acquire, cleanups, uses) ==
                FirstUnprotected(cfg.graph, acquire, cleanups, uses[i..])
    {
      assert uses[i..][0] == uses[i] && uses[i..][1..] == uses[i + 1..];
      var protected_ := IsProtected(cfg, acquire, cleanups, uses[i].id);
      if !protected_ {
        return Some(uses[i]);
      }
      i := i + 1;
    }
    assert uses[|uses|..] == [];
    return None;
  }

  /** The body of the loop over acquisitions. */
  method Evaluate(t: LifecycleText, cfg: ControlFlowGraph, ordered: seq<Op>, p: Protocol, acquire: Op)
    returns (v: Verdict)
    requires cfg.Valid()
    modifies cfg
    ensures cfg.Valid() && v == VerdictOf(t, cfg.graph, ordered, p, acquire)
  {
    if p.resultIndex >= |acquire.resultTargets| {
      return Abstain(NoResult);
    }
    if !UsableBinding(acquire.resultTargets[p.resultIndex]) {
      return Abstain(UnusableResult);
    }
    var s := Site(p, acquire, acquire.resultTargets[p.resultIndex]);
    var cleanups := Collect(t, cfg, ordered, s, Cleanup);
    var transfers := Collect(t, cfg, ordered, s, Transfer);
    if transfers != [] {
      return Abstain(OwnershipTransferred);
    }
    var uses := Collect(t, cfg, ordered, s, Use);
    if uses == [] {
      return Abstain(NoReachableUse);
    }
    var first := FindUnprotected(cfg, acquire.id, cleanups, uses);
    v := match first case Some(use) => Unprotected(use, cleanups) case None => Clean;
  }

  method EvaluateProtocol(
        t: LifecycleText, index: Index, cfg: ControlFlowGraph, ordered: seq<Op>, p: Protocol, start: Result)
          returns (r: Result)
    requires cfg.Valid()
    modifies cfg
    ensures cfg.Valid() && r == AfterProtocol(t, index, cfg.graph, ordered, p, start)
  {
    var acquisitions := Acquisitions(t, index, cfg.operations, ordered, p);
    r := start;
    if acquisitions == [] {
      return r.(abstentions := r.abstentions + 1, unknownReasons :=
        r.unknownReasons + [UnknownReason(p, None, NoAcquire)]);
    }
    for i := 0 to |acquisitions|
      invariant cfg.Valid() && r == AfterSites(t, index, cfg.graph, ordered, p, acquisitions[..i], start)
    {
      assert acquisitions[..i + 1][..i] == acquisitions[..i];
      var v := Evaluate(t, cfg, ordered, p, acquisitions[i]);
      r := Record(index, r, p, acquisitions[i], v);
    }
    assert acquisitions[..|acquisitions|] == acquisitions;
  }

  method Analyze(t: LifecycleText, index: Index, ir: SemanticIR, protocols: seq<Protocol>) returns (r: Result)
    ensures r ==
            ReportOf(t, index, GraphOfIr(ir, {}), SortOps(ir.operations), protocols, Result([], |protocols|, 0, 0, []))
  {
    var cfg := FromIr(ir, {});
    var ordered := SortOps(ir.operations);
    r := Result([], |protocols|, 0, 0, []);
    ghost var start := r;
    for i := 0 to |protocols|
      invariant cfg.Valid() && fresh(cfg) && cfg.graph == GraphOfIr(ir, {})
      invariant r == ReportOf(t, index, GraphOfIr(ir, {}), ordered, protocols[..i], start)
    {
      assert protocols[..i + 1][..i] == protocols[..i];
      r := EvaluateProtocol(t, index, cfg, ordered, protocols[i], r);
    }
    assert protocols[..|protocols|] == protocols;
  }

  // ---------- what the report guarantees ----------

  /** The three ways an evaluation ends. */
  datatype Ending = EndsClean | EndsReported | EndsAbstained

  function EndingOf(v: Verdict): Ending {
    match v
    case Clean => EndsClean
    case Unprotected(_, _) => EndsReported
    case Abstain(_) => EndsAbstained
  }

  /** How the evaluations of a list of acquisitions end. */
  ghost function EndingsAt(t: LifecycleText, g: Graph, ordered: seq<Op>, p: Protocol,
          acquisitions: seq<Op>): seq<Ending>
    decreases |acquisitions|
  {
    if acquisitions == [] then []
    else
      var n := |acquisitions| - 1;
      EndingsAt(t, g, ordered, p, acquisitions[..n]) + [EndingOf(VerdictOf(t, g, ordered, p, acquisitions[n]))]
  }

  /** How the evaluations of all acquisitions under all protocols end. */
  ghost function Endings(t: LifecycleText, index: Index, g: Graph, ordered: seq<Op>,
          protocols: seq<Protocol>): seq<Ending>
    decreases |protocols|
  {
    if protocols == [] then []
    else
      var p := protocols[|protocols| - 1];
      Endings(t, index, g, ordered, protocols[..|protocols| - 1]) +
      EndingsAt(t, g, ordered, p, Acquisitions(t, index, g.ops, ordered, p))
  }

  /** For each protocol, whether the program has no acquisition under it. */
  ghost function Unmatched(t: LifecycleText, index: Index, g: Graph, ordered: seq<Op>,
          protocols: seq<Protocol>): seq<bool>
    decreases |protocols|
  {
    if protocols == [] then []
    else
      var n := |protocols| - 1;
      Unmatched(t, index, g, ordered, protocols[..n]) + [Acquisitions(t, index, g.ops, ordered, protocols[n]) == []]
  }

  /** What evaluations that ended so add to a report. */
  ghost predicate Accounts(start: Result, r: Result, endings: seq<Ending>, unmatched: nat) {
    && r.protocolsEvaluated == start.protocolsEvaluated
    && r.acquisitionsEvaluated == start.acquisitionsEvaluated + |endings|
    && |r.findings| == |start.findings| + multiset(endings)[EndsReported]
    && r.abstentions == start.abstentions + multiset(endings)[EndsAbstained] + unmatched
    && |r.unknownReasons| == |start.unknownReasons| + multiset(endings)[EndsAbstained] + unmatched
  }

  lemma RecordAccounts(index: Index, start: Result, before: Result, endings: seq<Ending>, p: Protocol, acquire: Op,
          v: Verdict)
    requires Accounts(start, before, endings, 0)
    ensures Accounts(start, Record(index, before, p, acquire, v), endings + [EndingOf(v)], 0)
  {
    CountOneMore(endings, EndingOf(v), EndsReported);
    CountOneMore(endings, EndingOf(v), EndsAbstained);
  }

  lemma AccountsJoin(
        start: Result, middle: Result, end: Result, first: seq<Ending>, second: seq<Ending>, unmatched: nat)
    requires Accounts(start, middle, first, unmatched) && Accounts(middle, end, second, 0)
    ensures Accounts(start, end, first + second, unmatched)
  {
    AppendItems(first, second, first + second);
  }

  lemma {:induction false} SitesAreAccounted(
        t: LifecycleText, index: Index, g: Graph, ordered: seq<Op>, p: Protocol, acquisitions: seq<Op>, r: Result)
    ensures Accounts(r, AfterSites(t, index, g, ordered, p, acquisitions, r), EndingsAt(t, g, ordered, p, acquisitions),
            0)
    decreases |acquisitions|
  {
    if acquisitions != [] {
      var n := |acquisitions| - 1;
      var before, v := EndingsAt(t, g, ordered, p, acquisitions[..n]), VerdictOf(t, g, ordered, p, acquisitions[n]);
      SitesAreAccounted(t, index, g, ordered, p, acquisitions[..n], r);
      RecordAccounts(index, r, AfterSites(t, index, g, ordered, p, acquisitions[..n], r), before, p, acquisitions[n],
        v);
    }
  }

  lemma {:induction false} EndingsPartition(endings: seq<Ending>)
    ensures |endings| ==
            multiset(endings)[EndsClean] + multiset(endings)[EndsReported] + multiset(endings)[EndsAbstained]
  {
    if endings == [] {
      assert multiset(endings) == multiset{};
    } else {
      var n := |endings| - 1;
      EndingsPartition(endings[..n]);
      assert endings[..n] + [endings[n]] == endings;
      assert endings[n].EndsClean? || endings[n].EndsReported? || endings[n].EndsAbstained?;
      CountOneMore(endings[..n], endings[n], EndsClean);
      CountOneMore(endings[..n], endings[n], EndsReported);
      CountOneMore(endings[..n], endings[n], EndsAbstained);
    }
  }

  lemma ProtocolAccounts(
        t: LifecycleText, index: Index, g: Graph, ordered: seq<Op>, p: Protocol, start: Result, r: Result,
        endings: seq<Ending>, marks: seq<bool>)
    requires Accounts(start, r, endings, multiset(marks)[true])
    ensures var acquisitions := Acquisitions(t, index, g.ops, ordered, p);
            Accounts(start, AfterProtocol(t, index, g, ordered, p, r),
                     endings + EndingsAt(t, g, ordered, p, acquisitions),
                     multiset(marks + [acquisitions == []])[true])
  {
    var acquisitions := Acquisitions(t, index, g.ops, ordered, p);
    CountOneMore(marks, acquisitions == [], true);
    if acquisitions == [] {
      assert endings + EndingsAt(t, g, ordered, p, acquisitions) == endings;
    } else {
      SitesAreAccounted(t, index, g, ordered, p, acquisitions, r);
      AccountsJoin(start, r, AfterSites(t, index, g, ordered, p, acquisitions, r), endings,
                   EndingsAt(t, g, ordered, p, acquisitions), multiset(marks)[true]);
    }
  }

  /** Every acquisition under a protocol is evaluated and ends clean, as a finding or as an
      abstention; the findings are as many as the unprotected ones; and the abstentions, each
      with one reason, are the evaluations that abstain and the protocols without acquisition. */
  lemma {:induction false} ReportIsAccounted(
        t: LifecycleText, index: Index, g: Graph, ordered: seq<Op>, protocols: seq<Protocol>, start: Result)
    ensures var endings := Endings(t, index, g, ordered, protocols);
            && Accounts(start, ReportOf(t, index, g, ordered, protocols, start), endings,
                        multiset(Unmatched(t, index, g, ordered, protocols))[true])
            && |endings| ==
               multiset(endings)[EndsClean] + multiset(endings)[EndsReported] + multiset(endings)[EndsAbstained]
    decreases |protocols|
  {
    EndingsPartition(Endings(t, index, g, ordered, protocols));
    if protocols != [] {
      var rest, p := protocols[..|protocols| - 1], protocols[|protocols| - 1];
      ReportIsAccounted(t, index, g, ordered, rest, start);
      ProtocolAccounts(t, index, g, ordered, p, start, ReportOf(t, index, g, ordered, rest, start),
                       Endings(t, index, g, ordered, rest), Unmatched(t, index, g, ordered, rest));
    }
  }

  /** The finding states the verdict on its acquisition, with its binding and type evidence. */
  ghost predicate Reports(t: LifecycleText, index: Index, g: Graph, ordered: seq<Op>, f: Finding) {
    && VerdictOf(t, g, ordered, f.protocol, f.acquire) == Unprotected(f.use, f.cleanups)
    && f.binding == BindingOf(f.protocol, f.acquire)
    && f.typeEvidenceIds == EvidenceIds(index, f.acquire.id, Receiver)
  }

  /** A finding of the report comes from one of the protocols and a real acquisition under it. */
  ghost predicate Grounded(t: LifecycleText, index: Index, g: Graph, ordered: seq<Op>, protocols: seq<Protocol>,
          f: Finding) {
    && f.protocol in protocols
    && f.acquire in Acquisitions(t, index, g.ops, ordered, f.protocol)
    && Reports(t, index, g, ordered, f)
  }

  lemma {:induction false} SiteFindings(
        t: LifecycleText, index: Index, g: Graph, ordered: seq<Op>, p: Protocol, acquisitions: seq<Op>, r: Result)
    ensures forall f :: f in AfterSites(t, index, g, ordered, p, acquisitions, r).findings ==>
              f in r.findings ||
              (f.protocol == p && f.acquire in acquisitions && Reports(t, index, g, ordered, f))
    ensures forall f :: f in r.findings ==> f in AfterSites(t, index, g, ordered, p, acquisitions, r).findings
    ensures forall a :: a in acquisitions && VerdictOf(t, g, ordered, p, a).Unprotected? ==>
              exists f :: f in AfterSites(t, index, g, ordered, p, acquisitions, r).findings && f.protocol == p &&
                f.acquire == a
    decreases |acquisitions|
  {
    if acquisitions != [] {
      SplitLast(acquisitions);
      var rest, last := acquisitions[..|acquisitions| - 1], acquisitions[|acquisitions| - 1];
      SiteFindings(t, index, g, ordered, p, rest, r);
      var before, after := AfterSites(t, index, g, ordered, p, rest, r),
      AfterSites(t, index, g, ordered, p, acquisitions, r);
      assert forall f :: f in before.findings ==> f in after.findings;
      if VerdictOf(t, g, ordered, p, last).Unprotected? {
        assert after.findings[|before.findings|] in after.findings;
      }
    }
  }

  /** The findings are exactly the unprotected acquisitions of the protocols. */
  lemma {:induction false} FindingsAreExact(
        t: LifecycleText, index: Index, g: Graph, ordered: seq<Op>, protocols: seq<Protocol>, r: Result)
    requires r.findings == []
    ensures forall f :: f in ReportOf(t, index, g, ordered, protocols, r).findings ==>
            Grounded(t, index, g, ordered, protocols, f)
    ensures forall p, a ::
              && p in protocols && a in Acquisitions(t, index, g.ops, ordered, p)
              && VerdictOf(t, g, ordered, p, a).Unprotected? ==>
              exists f ::
                f in ReportOf(t, index, g, ordered, protocols, r).findings && f.protocol == p && f.acquire == a
    decreases |protocols|
  {
    if protocols != [] {
      SplitLast(protocols);
      var rest, p := protocols[..|protocols| - 1], protocols[|protocols| - 1];
      FindingsAreExact(t, index, g, ordered, rest, r);
      SiteFindings(t, index, g, ordered, p, Acquisitions(t, index, g.ops, ordered, p),
        ReportOf(t, index, g, ordered, rest, r));
      assert forall f :: Grounded(t, index, g, ordered, rest, f) ==> Grounded(t, index, g, ordered, protocols, f);
    }
  }

  /** The analyzer's graph and its ordered operations describe one another. */
  lemma AnalyzedGraphDescribes(ir: SemanticIR)
    requires UniqueIds(ir.operations)
    ensures Describes(GraphOfIr(ir, {}), SortOps(ir.operations))
  {
    SortOpsKeepsUnique(ir.operations);
    FilterKeepsUnique((op: Op) => Kept(op, {}), ir.operations);
    forall op | op in SortOps(ir.operations) ensures op.id in GraphOfIr(ir, {}).ops &&
      GraphOfIr(ir, {}).ops[op.id] == op {
      UniqueLookup(KeptOps(ir.operations, {}), op);
    }
  }

  /** So a finding is never about a resource that its function returns. */
  lemma NoFindingIsTransferred(t: LifecycleText, index: Index, ir: SemanticIR, protocols: seq<Protocol>, r: Result,
          f: Finding)
    requires r.findings == []
    requires f in ReportOf(t, index, GraphOfIr(ir, {}), SortOps(ir.operations), protocols, r).findings
    ensures !ReturnsBinding(t, ir, f.acquire, f.binding) && f.binding != "" && f.binding != "_"
  {
    FindingsAreExact(t, index, GraphOfIr(ir, {}), SortOps(ir.operations), protocols, r);
    TransferAbstainsIff(t, ir, f.protocol, f.acquire);
  }
}
