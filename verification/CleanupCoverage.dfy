/** When asking for one cleanup on every walk is the same as asking that no walk goes without cleanup
    (smartbench/analysis/resource_lifecycle.py). */
module CleanupCoverage {
  import opened Sequences
  import opened Walks
  import opened Ir
  import opened ControlFlow
  import opened ResourceLifecycle

  /** Operations of one scope that may be an acquisition, its use and the cleanup candidates. */
  ghost predicate Candidates(acquire: Op, use: Op, cleanups: seq<Op>) {
    && UniqueIds([acquire, use] + cleanups)
    && use.scope == acquire.scope && forall c :: c in cleanups ==> c.scope == acquire.scope
  }

  /** A program that holds them, and in which the use and each candidate are reached. */
  ghost predicate Reaches(g: Graph, acquire: Op, use: Op, cleanups: seq<Op>) {
    && WellFormed(g)
    && (forall op :: op in [acquire, use] + cleanups ==> op.id in g.ops && g.ops[op.id] == op)
    && Reach(Rel(g), acquire.id, use.id) && forall c :: c in cleanups ==> Reach(Rel(g), acquire.id, c.id)
  }

  /** The analyzer's test fails the use exactly when some walk to it has no cleanup. */
  ghost predicate Exact(g: Graph, acquire: Op, use: Op, cleanups: seq<Op>) {
    !Protected(g, acquire.id, cleanups, use.id) <==> CleanupFreeWalk(g, acquire.id, cleanups, use.id)
  }

  lemma CandidateIds(acquire: Op, use: Op, cleanups: seq<Op>)
    requires Candidates(acquire, use, cleanups)
    ensures acquire.id != use.id && forall i :: 0 <= i < |cleanups| ==>
            cleanups[i].id != acquire.id && cleanups[i].id != use.id
    ensures forall i, j :: 0 <= i < j < |cleanups| ==> cleanups[i].id != cleanups[j].id
  {
    var all := [acquire, use] + cleanups;
    assert all[0] == acquire && all[1] == use && forall i :: 0 <= i < |cleanups| ==> all[i + 2] == cleanups[i];
  }

  /** Exactly: the test means that no walk goes without cleanup, in every program that holds these
      operations, if and only if there is at most one candidate. */
  lemma ExactInEveryProgramIff(acquire: Op, use: Op, cleanups: seq<Op>)
    requires Candidates(acquire, use, cleanups)
    ensures (forall g :: Reaches(g, acquire, use, cleanups) ==> Exact(g, acquire, use, cleanups)) <==> |cleanups| <= 1
  {
    CandidateIds(acquire, use, cleanups);
    if |cleanups| <= 1 {
      forall g | Reaches(g, acquire, use, cleanups) ensures Exact(g, acquire, use, cleanups) {
        assert acquire in [acquire, use] + cleanups && use in [acquire, use] + cleanups;
        ProtectedMeansOneOnEveryWalk(g, acquire.id, cleanups, use.id);
        UncoveredByOne(g, acquire.id, cleanups, use.id);
      }
    } else {
      var g := FanIsNotExact(acquire, use, cleanups);
    }
  }

  /** One arm for each candidate, from the acquisition to the use. */
  ghost function Fan(acquire: Op, use: Op, cleanups: seq<Op>): Graph {
    Graph(OpsById([acquire, use] + cleanups),
          (set c | c in cleanups :: Arc(acquire.id, c.id, Next)) + set c | c in cleanups :: Arc(c.id, use.id, Next))
  }

  lemma FanArms(g: Graph, acquire: Op, use: Op, cleanups: seq<Op>, c: Op)
    requires g == Fan(acquire, use, cleanups) && c in cleanups
    ensures WalkFromTo(Rel(g), [acquire.id, c.id, use.id], acquire.id, use.id)
    ensures Reach(Rel(g), acquire.id, use.id) && Reach(Rel(g), acquire.id, c.id)
  {
    assert Arc(acquire.id, c.id, Next) in g.arcs && Arc(c.id, use.id, Next) in g.arcs;
    StepIsReach(Rel(g), acquire.id, c.id);
  }

  lemma FanReaches(g: Graph, acquire: Op, use: Op, cleanups: seq<Op>)
    requires g == Fan(acquire, use, cleanups) && Candidates(acquire, use, cleanups) && cleanups != []
    ensures Reaches(g, acquire, use, cleanups)
  {
    var all := [acquire, use] + cleanups;
    forall op | op in all ensures op.id in g.ops && g.ops[op.id] == op {
      UniqueLookup(all, op);
    }
    assert acquire in all && use in all && forall c :: c in cleanups ==> c in all;
    FanArcsInside(g, acquire, use, cleanups);
    forall c | c in cleanups ensures Reach(Rel(g), acquire.id, c.id) && Reach(Rel(g), acquire.id, use.id) {
      FanArms(g, acquire, use, cleanups, c);
    }
    assert cleanups[0] in cleanups;
  }

  lemma FanArcsInside(g: Graph, acquire: Op, use: Op, cleanups: seq<Op>)
    requires g == Fan(acquire, use, cleanups) && Candidates(acquire, use, cleanups)
    requires acquire.id in g.ops && g.ops[acquire.id] == acquire && use.id in g.ops && g.ops[use.id] == use
    requires forall c :: c in cleanups ==> c.id in g.ops && g.ops[c.id] == c
    ensures WellFormed(g)
  {}

  /** With two arms every candidate is avoided by the other, and yet no walk avoids all of them. */
  lemma FanIsNotExact(acquire: Op, use: Op, cleanups: seq<Op>) returns (g: Graph)
    requires Candidates(acquire, use, cleanups) && |cleanups| >= 2
    ensures Reaches(g, acquire, use, cleanups) && !Exact(g, acquire, use, cleanups)
  {
    g := Fan(acquire, use, cleanups);
    FanReaches(g, acquire, use, cleanups);
    CandidateIds(acquire, use, cleanups);
    forall c | c in cleanups ensures !EveryWalkVisits(g, acquire.id, c.id, use.id) {
      FanAvoids(g, acquire, use, cleanups, c);
    }
    FanIsCovered(g, acquire, use, cleanups);
    assert acquire in [acquire, use] + cleanups && use in [acquire, use] + cleanups;
    ProtectedMeansOneOnEveryWalk(g, acquire.id, cleanups, use.id);
  }

  lemma FanAvoids(g: Graph, acquire: Op, use: Op, cleanups: seq<Op>, c: Op)
    requires g == Fan(acquire, use, cleanups) && Candidates(acquire, use, cleanups) && |cleanups| >= 2 && c in cleanups
    ensures !EveryWalkVisits(g, acquire.id, c.id, use.id)
  {
    var other := OtherCandidate(acquire, use, cleanups, c);
    FanArms(g, acquire, use, cleanups, other);
    assert c.id !in [acquire.id, other.id, use.id];
  }

  lemma OtherCandidate(acquire: Op, use: Op, cleanups: seq<Op>, c: Op) returns (other: Op)
    requires Candidates(acquire, use, cleanups) && |cleanups| >= 2 && c in cleanups
    ensures other in cleanups && other.id != c.id && c.id != acquire.id && c.id != use.id
  {
    CandidateIds(acquire, use, cleanups);
    var i :| 0 <= i < |cleanups| && cleanups[i] == c;
    other := if i == 0 then cleanups[1] else cleanups[0];
  }

  lemma FanIsCovered(g: Graph, acquire: Op, use: Op, cleanups: seq<Op>)
    requires g == Fan(acquire, use, cleanups) && Candidates(acquire, use, cleanups)
    ensures !CleanupFreeWalk(g, acquire.id, cleanups, use.id)
  {
    CandidateIds(acquire, use, cleanups);
    forall p | WalkFromTo(Rel(g), p, acquire.id, use.id) && |p| > 1 ensures exists c :: c in cleanups && c.id in p {
      assert (p[0], p[1]) in Rel(g);
      var a :| a in g.arcs && (a.source, a.target) == (p[0], p[1]);
      var c :| c in cleanups && (a == Arc(acquire.id, c.id, Next) || a == Arc(c.id, use.id, Next));
      assert c.id in p;
    }
  }
}
