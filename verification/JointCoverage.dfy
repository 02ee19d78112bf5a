/** A program on which the lifecycle analyzer reports a use that no walk reaches without cleanup. */
module JointCoverage {
  import opened Sequences
  import opened Walks
  import opened Ir
  import opened ControlFlow
  import opened TypeEvidence
  import opened Programs
  import opened ResourceLifecycle

  // r = open(); if ... { defer r.Close() } else { defer r.Close() }; r.Read()

  function JointOp(id: Id, kind: OpKind, target: string, host: Id, results: seq<string>, calls: seq<string>): Op {
    Op(id, kind, "go", 9, id, id, target, "", host, results, calls)
  }

  const OPEN := JointOp(1, Call, "open", 2, ["r"], [])
  const OPENED := JointOp(2, Assign, "r", NO_ID, [], ["open"])
  const CHOICE := JointOp(3, Branch, "", NO_ID, [], [])
  const CLOSE_LEFT := JointOp(4, Defer, "r.Close", NO_ID, [], [])
  const CLOSE_RIGHT := JointOp(5, Defer, "r.Close", NO_ID, [], [])
  const READ := JointOp(6, Call, "r.Read", NO_ID, [], [])

  predicate IsJoint(ir: SemanticIR) {
    && ir.operations == [OPEN, OPENED, CHOICE, CLOSE_LEFT, CLOSE_RIGHT, READ]
    && ir.edges == [
         Edge(1, 2, EdgeKind.Next, ""), Edge(2, 3, EdgeKind.Next, ""), Edge(3, 4, EdgeKind.TrueBranch, ""),
         Edge(3, 5, EdgeKind.FalseBranch, ""), Edge(4, 6, EdgeKind.Next, ""), Edge(5, 6, EdgeKind.Next, "")]
  }

  const PROTOCOL := Protocol("open", 0, ["Close"], ExactMode, "", "", "", [], [])

  /** The readers on these operations: r.Close and r.Read have the receiver r, and only r.Read uses it. */
  const TEXT := LifecycleText(
    (op: Op, binding: string) => if op.id in {4, 5, 6} then Some("") else None,
    (op: Op) => if op.kind.Defer? then "Close" else "",
    (symbol: string) => symbol,
    (symbol: string) => false,
    (op: Op, binding: string, memberPath: string) => op.id == 6,
    (op: Op) => {},
    (name: string) => name)

  const SITE := Site(PROTOCOL, OPEN, "r")

  lemma JointFlow(ir: SemanticIR)
    requires IsJoint(ir)
    ensures Numbered(ir.operations) && FlowsInside(ir.operations, ir.edges)
    ensures forall e :: e in ir.edges && e.target == 6 ==> e.source == 4 || e.source == 5
  {}

  ghost predicate JointWalks(r: Relation) {
    && WalkFromTo(r, [1, 2, 3, 4, 6], 1, 6) && WalkFromTo(r, [1, 2, 3, 5, 6], 1, 6)
    && WalkFromTo(r, [1, 2, 3, 4], 1, 4) && WalkFromTo(r, [1, 2, 3, 5], 1, 5)
    && forall p :: WalkFromTo(r, p, 1, 6) ==> 4 in p || 5 in p
  }

  lemma JointArcs(ir: SemanticIR, r: Relation)
    requires IsJoint(ir) && forall e :: e in ir.edges ==> (e.source, e.target) in r
    ensures (1, 2) in r && (2, 3) in r && (3, 4) in r && (3, 5) in r && (4, 6) in r && (5, 6) in r
  {
    var edges := ir.edges;
    assert edges[0] in edges && edges[1] in edges && edges[2] in edges;
    assert edges[3] in edges && edges[4] in edges && edges[5] in edges;
  }

  lemma IntoRead(edges: seq<Edge>, r: Relation)
    requires PairsUp(r, edges) && forall e :: e in edges && e.target == 6 ==> e.source == 4 || e.source == 5
    ensures forall u :: (u, 6) in r ==> u == 4 || u == 5
  {}

  lemma WalksThroughClose(r: Relation)
    requires (1, 2) in r && (2, 3) in r && (3, 4) in r && (3, 5) in r && (4, 6) in r && (5, 6) in r
    requires forall u :: (u, 6) in r ==> u == 4 || u == 5
    ensures JointWalks(r)
  {
    forall p | WalkFromTo(r, p, 1, 6) ensures 4 in p || 5 in p {
      var k := |p| - 2;
      assert (p[k], p[k + 1]) in r;
      assert p[k] in p;
    }
  }

  lemma JointGraph(ir: SemanticIR, g: Graph)
    requires IsJoint(ir) && g == GraphOfIr(ir, {})
    ensures UniqueIds(ir.operations) && g.ops == OpsById(ir.operations)
    ensures LooksUp(g.ops, ir.operations) && JointWalks(Rel(g))
  {
    JointFlow(ir);
    NumberedGraph(ir, g);
    JointArcs(ir, Rel(g));
    IntoRead(ir.edges, Rel(g));
    WalksThroughClose(Rel(g));
  }

  /** Who plays which part in this program. */
  lemma JointParts(ir: SemanticIR, g: Graph, op: Op)
    requires IsJoint(ir) && JointWalks(Rel(g)) && op in ir.operations
    ensures IsUse(TEXT, g, SITE, op) <==> op == READ
    ensures IsCleanup(TEXT, g, SITE, op) <==> op == CLOSE_LEFT || op == CLOSE_RIGHT
    ensures !IsTransfer(TEXT, g, SITE, op)
  {
    var r := Rel(g);
    assert WalkFromTo(r, [1, 2, 3, 4], 1, 4) && WalkFromTo(r, [1, 2, 3, 5], 1, 5) &&
           WalkFromTo(r, [1, 2, 3, 4, 6], 1, 6);
    assert Reach(r, 1, 4) && Reach(r, 1, 5) && Reach(r, 1, 6);
  }

  lemma FirstOfLone(g: Graph, acquire: Id, cleanups: seq<Op>, uses: seq<Op>, use: Op)
    requires (forall u :: u in uses ==> u == use) && !Protected(g, acquire, cleanups, use.id)
    ensures uses != [] ==> FirstUnprotected(g, acquire, cleanups, uses) == Some(use)
  {
    if uses != [] { assert uses[0] in uses; }
  }

  lemma {:induction false} NobodyPlays(t: LifecycleText, g: Graph, s: Site, part: Part, ordered: seq<Op>)
    requires forall op :: op in ordered ==> !Plays(t, g, s, part, op)
    ensures Cast(t, g, s, part, ordered) == []
    decreases |ordered|
  {
    if ordered != [] { NobodyPlays(t, g, s, part, ordered[..|ordered| - 1]); }
  }

  /** With a single use and no transfer, the verdict is about that use. */
  lemma LoneUse(t: LifecycleText, g: Graph, ordered: seq<Op>, s: Site, use: Op)
    requires use in ordered && forall op :: op in ordered ==>
             !IsTransfer(t, g, s, op) && (IsUse(t, g, s, op) <==> op == use)
    requires !Protected(g, s.acquire.id, Cast(t, g, s, Cleanup, ordered), use.id)
    ensures VerdictAt(t, g, ordered, s) == Unprotected(use, Cast(t, g, s, Cleanup, ordered))
  {
    NobodyPlays(t, g, s, Transfer, ordered);
    CastMembers(t, g, s, Use, ordered);
    FirstOfLone(g, s.acquire.id, Cast(t, g, s, Cleanup, ordered), Cast(t, g, s, Use, ordered), use);
    assert Plays(t, g, s, Use, use);
  }

  lemma JointVerdict(ir: SemanticIR, g: Graph, ordered: seq<Op>)
    requires IsJoint(ir) && WellFormed(g) && SameScope(g, 1, 6) && JointWalks(Rel(g))
    requires forall op :: op in ordered <==> op in ir.operations
    ensures var v := VerdictAt(TEXT, g, ordered, SITE); v.Unprotected? && v.use == READ
  {
    var cleanups := Cast(TEXT, g, SITE, Cleanup, ordered);
    CastMembers(TEXT, g, SITE, Cleanup, ordered);
    forall op | op in ordered
      ensures !IsTransfer(TEXT, g, SITE, op) && (IsUse(TEXT, g, SITE, op) <==> op == READ)
      ensures IsCleanup(TEXT, g, SITE, op) ==> op.id == 4 || op.id == 5
    {
      JointParts(ir, g, op);
    }
    EachCloseIsAvoidable(g, cleanups);
    assert READ in ir.operations;
    LoneUse(TEXT, g, ordered, SITE, READ);
  }

  lemma EachCloseIsAvoidable(g: Graph, cleanups: seq<Op>)
    requires JointWalks(Rel(g)) && SameScope(g, 1, 6) && WellFormed(g)
    requires forall c :: c in cleanups ==> c.id == 4 || c.id == 5
    ensures !Protected(g, 1, cleanups, 6)
  {
    assert 4 !in [1, 2, 3, 5, 6] && 5 !in [1, 2, 3, 4, 6];
    assert !EveryWalkVisits(g, 1, 4, 6) && !EveryWalkVisits(g, 1, 5, 6);
  }

  lemma JointAcquisition(ir: SemanticIR, m: map<Id, Op>, ordered: seq<Op>)
    requires IsJoint(ir) && LooksUp(m, ir.operations) && OPEN in ordered
    ensures OPEN in Acquisitions(TEXT, [], m, ordered, PROTOCOL)
  {
    assert 2 in m && m[2] == ir.operations[1];
    assert IsPrimaryResultCall(m, OPEN);
  }

  lemma JointWitness(ir: SemanticIR, g: Graph)
    requires IsJoint(ir) && JointWalks(Rel(g))
    ensures IsCleanup(TEXT, g, SITE, CLOSE_LEFT) && IsCleanup(TEXT, g, SITE, CLOSE_RIGHT) && IsUse(TEXT, g, SITE, READ)
    ensures !CleanupFreeWalk(g, 1, [CLOSE_LEFT, CLOSE_RIGHT], 6)
  {
    assert CLOSE_LEFT in ir.operations && CLOSE_RIGHT in ir.operations && READ in ir.operations;
    JointParts(ir, g, CLOSE_LEFT);
    JointParts(ir, g, CLOSE_RIGHT);
    JointParts(ir, g, READ);
    assert CLOSE_LEFT in [CLOSE_LEFT, CLOSE_RIGHT] && CLOSE_RIGHT in [CLOSE_LEFT, CLOSE_RIGHT];
  }

  lemma JointSite(ir: SemanticIR, g: Graph, ordered: seq<Op>)
    requires IsJoint(ir) && WellFormed(g) && SameScope(g, 1, 6) && JointWalks(Rel(g))
    requires forall op :: op in ordered <==> op in ir.operations
    ensures var v := VerdictOf(TEXT, g, ordered, PROTOCOL, OPEN); v.Unprotected? && v.use == READ
  {
    JointVerdict(ir, g, ordered);
    assert OPEN.resultTargets[0] == "r" && UsableBinding("r");
  }

  /** The analyzer reports r.Read() in this program, although both r.Close() registrations count
      as cleanups and every walk from the acquisition to the use passes one of them. */
  lemma JointCoverageIsNotRecognized(ir: SemanticIR, g: Graph, ordered: seq<Op>)
    requires IsJoint(ir) && g == GraphOfIr(ir, {}) && ordered == SortOps(ir.operations)
    ensures UniqueIds(ir.operations) && OPEN in Acquisitions(TEXT, [], g.ops, ordered, PROTOCOL)
    ensures var v := VerdictOf(TEXT, g, ordered, PROTOCOL, OPEN); v.Unprotected? && v.use == READ
    ensures IsCleanup(TEXT, g, SITE, CLOSE_LEFT) && IsCleanup(TEXT, g, SITE, CLOSE_RIGHT) && IsUse(TEXT, g, SITE, READ)
    ensures !CleanupFreeWalk(g, OPEN.id, [CLOSE_LEFT, CLOSE_RIGHT], READ.id)
  {
    JointGraph(ir, g);
    JointWitness(ir, g);
    assert OPEN in ir.operations;
    JointAcquisition(ir, g.ops, ordered);
    assert SameScope(g, 1, 6) by { assert g.ops[1] == ir.operations[0] && g.ops[6] == ir.operations[5]; }
    JointSite(ir, g, ordered);
  }
}
