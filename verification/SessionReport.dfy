/** A session's stage in terms of the replies alone: which reply decides, how it ends, and what it finds. */
module SessionReport {
  import opened Sequences
  import opened Walks
  import opened Ir
  import opened ControlFlow
  import opened TypeEvidence
  import opened ResourceLifecycle
  import opened LifecycleReport
  import opened ProjectReader
  import opened Session

  /** The model a reply states: a document of at most thirty candidates. */
  ghost predicate States(r: Reply, m: Model) {
    && r.Document? && |r.items| <= 30
    && (forall c :: c in m.candidates <==> exists i: nat :: FirstItem(r.items, i, c))
    && |m.candidates| + m.rejected == |r.items|
  }

  lemma ReplyRead(r: Reply)
    ensures ParsedReply(r).None? <==> r.Unusable? || |r.items| > 30
    ensures ParsedReply(r).Some? ==> States(r, ParsedReply(r).value)
  {
    if r.Document? {
      KeptItemsAre(r.items);
      forall c ensures c in KeptItems(r.items) <==> exists i: nat :: FirstItem(r.items, i, c) {
        KeptItemsIff(r.items, c);
      }
    }
  }

  /** Reply n is reached: every reply before it, from k on, states a model whose candidates are all rejected. */
  ghost predicate Reached(j: Gates, replies: Replies, k: nat, n: nat) {
    k <= n && forall i :: k <= i < n ==> RejectedAt(j, replies, i)
  }

  ghost predicate CrashesAt(j: Gates, replies: Replies, k: nat, limit: nat, n: nat) {
    && n <= limit && Reached(j, replies, k, n)
    && ParsedReply(replies(n)).Some? && SomeRaise(j, ParsedReply(replies(n)).value.candidates)
  }

  ghost predicate Crashes(j: Gates, replies: Replies, k: nat, limit: nat) {
    exists n: nat :: CrashesAt(j, replies, k, limit, n)
  }

  lemma ReachedThrough(j: Gates, replies: Replies, k: nat, n: nat, i: nat)
    requires Reached(j, replies, k, n) && k <= i < n
    ensures ParsedReply(replies(i)).Some? && AllRejected(j, ParsedReply(replies(i)).value)
  {
    assert RejectedAt(j, replies, i);
  }

  /** The loop crashes exactly at a reply that is reached and has a candidate on which the constructor raises. */
  lemma {:induction false} CrashIff(j: Gates, replies: Replies, m: Model, k: nat, limit: nat)
    requires k <= limit && ParsedReply(replies(k)) == Some(m)
    ensures EndingFrom(j, replies, m, k, limit).Crashed? <==> Crashes(j, replies, k, limit)
    decreases limit - k
  {
    if SomeRaise(j, m.candidates) {
      assert CrashesAt(j, replies, k, limit, k);
    } else {
      RepairMeansAllRejected(j, m, k, limit);
      if !AsksRepair(j, m, k, limit) {
        NoLaterCrash(j, replies, m, k, limit);
      } else if ParsedReply(replies(k + 1)).None? {
        NoCrashPast(j, replies, k, limit);
      } else {
        CrashIff(j, replies, ParsedReply(replies(k + 1)).value, k + 1, limit);
        CrashLater(j, replies, k, limit);
      }
    }
  }

  lemma NoLaterCrash(j: Gates, replies: Replies, m: Model, k: nat, limit: nat)
    requires ParsedReply(replies(k)) == Some(m) && !SomeRaise(j, m.candidates)
    requires !AllRejected(j, m) || k == limit
    ensures !Crashes(j, replies, k, limit)
  {
    forall n: nat ensures !CrashesAt(j, replies, k, limit, n) {
      if k < n <= limit && Reached(j, replies, k, n) { ReachedThrough(j, replies, k, n, k); }
    }
  }

  lemma NoCrashPast(j: Gates, replies: Replies, k: nat, limit: nat)
    requires ParsedReply(replies(k)).Some? && !SomeRaise(j, ParsedReply(replies(k)).value.candidates)
    requires ParsedReply(replies(k + 1)).None?
    ensures !Crashes(j, replies, k, limit)
  {
    forall n: nat ensures !CrashesAt(j, replies, k, limit, n) {
      if k + 1 < n && Reached(j, replies, k, n) { ReachedThrough(j, replies, k, n, k + 1); }
    }
  }

  lemma CrashLater(j: Gates, replies: Replies, k: nat, limit: nat)
    requires RejectedAt(j, replies, k) && !SomeRaise(j, ParsedReply(replies(k)).value.candidates)
    ensures Crashes(j, replies, k, limit) <==> Crashes(j, replies, k + 1, limit)
  {
    if n: nat :| CrashesAt(j, replies, k, limit, n) {
      assert n != k;
      assert CrashesAt(j, replies, k + 1, limit, n);
    }
    var next := k + 1;
    if n: nat :| CrashesAt(j, replies, next, limit, n) {
      forall i | k <= i < n ensures RejectedAt(j, replies, i) {
        assert i == k || k + 1 <= i;
      }
      assert CrashesAt(j, replies, k, limit, n);
    }
  }

  /** Some candidate of the model is supported. */
  ghost predicate SupportsSome(j: Gates, m: Model) {
    exists c :: c in m.candidates && FinalDecision(j, c).Supported?
  }

  lemma ProtocolsRead(j: Gates, m: Model, p: Protocol)
    ensures p in ProtocolsOf(Judged(j, m.candidates)) <==>
            exists c :: c in m.candidates && FinalDecision(j, c) == Supported(p)
  {
    var ds := Judged(j, m.candidates);
    ProtocolsAre(ds, p);
    if d :| d in ds && d.decision == Supported(p) { JudgedMembers(j, m.candidates, d); }
    if c :| c in m.candidates && FinalDecision(j, c) == Supported(p) {
      JudgedMembers(j, m.candidates, MappingOf(j, c));
    }
  }

  lemma SomeProtocolRead(j: Gates, m: Model)
    ensures ProtocolsOf(Judged(j, m.candidates)) != [] <==> SupportsSome(j, m)
  {
    var ps := ProtocolsOf(Judged(j, m.candidates));
    if ps != [] {
      assert ps[0] in ps;
      ProtocolsRead(j, m, ps[0]);
    }
    if c :| c in m.candidates && FinalDecision(j, c).Supported? {
      ProtocolsRead(j, m, FinalDecision(j, c).protocol);
    }
  }

  /** How a run on a non-empty program ends, from the replies: nothing is known without a first model; a crash
      leaves no stage; else the loop ended well, and the status tells whether it found something, supported
      something, or neither. */
  lemma StageRead(b: Boundary, j: Gates, replies: Replies, limit: nat)
    ensures var s := StageOf(b, j, replies, limit);
            && (ParsedReply(replies(0)).None? ==> s == Some(Stage(Unavailable, None, [], None, 0, false, [])))
            && (s.None? <==> Crashes(j, replies, 0, limit))
            && (ParsedReply(replies(0)).Some? && s.Some? ==> EndedAs(j, replies, limit, s.value))
  {
    if ParsedReply(replies(0)).None? {
      forall n: nat ensures !CrashesAt(j, replies, 0, limit, n) {
        if n > 0 && Reached(j, replies, 0, n) { ReachedThrough(j, replies, 0, n, 0); }
      }
    } else {
      var first := ParsedReply(replies(0)).value;
      CrashIff(j, replies, first, 0, limit);
      if StageOf(b, j, replies, limit).Some? {
        EndingMeaning(j, replies, first, 0, limit);
        RunIsBounded(b, j, replies, limit);
        SomeProtocolRead(j, StageOf(b, j, replies, limit).value.model.value);
      }
    }
  }

  ghost predicate EndedAs(j: Gates, replies: Replies, limit: nat, s: Stage) {
    && s.model.Some? && s.decisions == Judged(j, s.model.value.candidates)
    && EndsWell(j, replies, 0, limit, Ended(s.model.value, s.repairs, s.repairFailed))
    && (s.status == HasFindings <==> s.findings != [])
    && (s.status == SupportedNoFinding <==> s.findings == [] && SupportsSome(j, s.model.value))
    && (s.status == Abstaining <==> !SupportsSome(j, s.model.value))
  }

  /** What a session finds: an acquisition under a supported protocol is a finding exactly when it leaks. */
  lemma SessionFindingIff(
        b: Boundary, j: Gates, replies: Replies, limit: nat, s: Stage, c: Candidate, p: Protocol, acquire: Op)
    requires UniqueIds(b.ir.operations) && StageOf(b, j, replies, limit) == Some(s) && s.model.Some?
    requires c in s.model.value.candidates && FinalDecision(j, c) == Supported(p)
    ensures (exists f :: f in s.findings && f.protocol == p && f.acquire == acquire) <==>
            Acquires(b.t, b.index, b.ir, p, acquire) && Leaks(b.t, b.ir, p, acquire)
  {
    ProtocolsRead(j, s.model.value, p);
    var protocols := ProtocolsOf(Judged(j, s.model.value.candidates));
    FindingIff(b.t, b.index, b.ir, protocols, Result([], |protocols|, 0, 0, []), p, acquire);
    assert s.findings == LifecycleOf(b, protocols).findings;
  }
}
