/** What a path returned by the ICFG query guarantees about the program it was built from. */
module IcfgTheorems {
  import opened Ir
  import opened ControlFlow
  import opened IcfgRuns
  import opened IcfgSearch
  import opened Icfg

  /** A returned path is realizable: its arc word is a prefix of a well-nested call word whose
      open calls number call_depth, within the bound. */
  lemma FoundPathIsRealizable(g: View, depth: nat, source: Id, target: Id, p: IcfgPath)
    requires ShortestRun(g, depth, source, target, p)
    ensures exists arcs: seq<Jump> ::
              && p.arcKinds == KindsOf(arcs) && |p.operationIds| == |arcs| + 1
              && (forall i :: 0 <= i < |arcs| ==>
                    arcs[i] in g.arcs && arcs[i].source == p.operationIds[i] && arcs[i].target == p.operationIds[i + 1])
              && OpenCalls(arcs).Open? && |OpenCalls(arcs).calls| == p.callDepth <= depth
              && p.callDepth == CountKind(arcs, CallEnter) - CountKind(arcs, CallReturn)
  {
    var cs: seq<Config>, arcs: seq<Jump> :| IsShortestRun(g, depth, source, target, p, cs, arcs);
    RunsAreNested(g, depth, source, cs, arcs);
    DepthCountsCalls(g, depth, source, cs, arcs);
    forall i | 0 <= i < |arcs|
      ensures arcs[i] in g.arcs && arcs[i].source == p.operationIds[i] && arcs[i].target == p.operationIds[i + 1]
    {
      assert Step(g, depth, cs[i], arcs[i], cs[i + 1]);
    }
  }

  /** What one erased step is in the program: a raw control edge, the way to an embedded call,
      a function's entry, or a raw control edge of the operation that owns the jumped call. */
  ghost predicate SourceStep(ir: SemanticIR, includeAsync: bool, u: Id, v: Id) {
    var ops := OpsById(ir.operations);
    || RawEdge(ops, ir.edges, u, v)
    || (u != NO_ID && HostOf(ops, includeAsync, v) == u)
    || (u in ops && ops[u].kind.Function? && v == EntryOf(ops, ir.edges, u))
    || ((exists f :: CallTarget(ops, ir.edges, includeAsync, u, f)) &&
       RawEdge(ops, ir.edges, Anchor(ops, includeAsync, u), v))
  }

  lemma ErasedStepIsSourceStep(g: View, ir: SemanticIR, includeAsync: bool, u: Id, v: Id)
    requires BuiltFrom(g, ir, includeAsync) && ErasedStep(g, u, v)
    ensures SourceStep(ir, includeAsync, u, v)
  {
    var ops := OpsById(ir.operations);
    if exists a :: a in g.arcs && a.source == u && a.target == v &&
                   (a.kind.CtrlFlow? || a.kind.EmbeddedCall? || a.kind.FunctionEntry?) {
      var a :| a in g.arcs && a.source == u && a.target == v &&
               (a.kind.CtrlFlow? || a.kind.EmbeddedCall? || a.kind.FunctionEntry?);
      assert BuiltArc(ops, ir.edges, includeAsync, a);
    } else {
      var a :| a in g.arcs && a.source == u && a.kind.CallEnter? && v in Lookup(g.continuations, a.callId);
      assert BuiltArc(ops, ir.edges, includeAsync, a);
      assert CallTarget(ops, ir.edges, includeAsync, u, a.target);
      assert a.target in Lookup(g.targets, u);
      assert u in g.targets;
    }
  }

  /** A walk through the original program whose marked steps enter a target of a call. */
  ghost predicate SourceWalk(ir: SemanticIR, includeAsync: bool, w: seq<Id>, open: seq<bool>) {
    && |w| == |open| + 1
    && forall i, j :: 0 <= i && j == i + 1 && j < |w| ==>
         if open[i] then CallTarget(OpsById(ir.operations), ir.edges, includeAsync, w[i], w[j])
         else SourceStep(ir, includeAsync, w[i], w[j])
  }

  /** Any run, once its matched calls are erased, is a walk through the original program that stays
      in its frame but for the steps marked open, one for each call still open at its end. */
  lemma RunsEraseToSourceWalks(
        g: View, ir: SemanticIR, includeAsync: bool, depth: nat, source: Id, cs: seq<Config>, arcs: seq<Jump>)
    returns (w: seq<Id>, open: seq<bool>)
    requires BuiltFrom(g, ir, includeAsync) && RunFrom(g, depth, source, cs, arcs)
    ensures SourceWalk(ir, includeAsync, w, open) && w[0] == source && w[|w| - 1] == cs[|cs| - 1].op
    ensures CountOpen(open) == |cs[|cs| - 1].stack| && forall x :: x in w ==> x in OpsOf(cs)
  {
    var trace := CallErasure(g, depth, source, cs, arcs, |arcs|);
    w, open := OpsOf(trace), Openings(trace);
    OpeningsAre(trace);
    forall i, j | 0 <= i && j == i + 1 && j < |w|
      ensures if open[i] then CallTarget(OpsById(ir.operations), ir.edges, includeAsync, w[i], w[j])
              else SourceStep(ir, includeAsync, w[i], w[j])
    {
      TraceStepIsSourceStep(g, ir, includeAsync, trace[i], trace[j]);
    }
    assert cs[..|arcs| + 1] == cs;
    TraceStaysOnRun(trace, cs);
  }

  lemma TraceStaysOnRun(trace: seq<Config>, cs: seq<Config>)
    requires forall i :: 0 <= i < |trace| ==> trace[i] in cs
    ensures forall x :: x in OpsOf(trace) ==> x in OpsOf(cs)
  {
    forall x | x in OpsOf(trace) ensures x in OpsOf(cs) {
      var i :| 0 <= i < |trace| && trace[i].op == x;
      var m :| 0 <= m < |cs| && cs[m] == trace[i];
      assert OpsOf(cs)[m] == x;
    }
  }

  /** The same for any returned path: exactly call_depth of the steps enter calls. */
  lemma PathsEraseToSourceWalks(g: View, ir: SemanticIR, includeAsync: bool, depth: nat, source: Id, target: Id,
          p: IcfgPath)
    returns (w: seq<Id>, open: seq<bool>)
    requires BuiltFrom(g, ir, includeAsync) && ShortestRun(g, depth, source, target, p)
    ensures SourceWalk(ir, includeAsync, w, open) && w[0] == source && w[|w| - 1] == target
    ensures CountOpen(open) == p.callDepth && forall x :: x in w ==> x in p.operationIds
  {
    var cs: seq<Config>, arcs: seq<Jump> :| IsShortestRun(g, depth, source, target, p, cs, arcs);
    w, open := RunsEraseToSourceWalks(g, ir, includeAsync, depth, source, cs, arcs);
  }

  lemma TraceStepIsSourceStep(g: View, ir: SemanticIR, includeAsync: bool, c: Config, d: Config)
    requires BuiltFrom(g, ir, includeAsync) && (StaysInFrame(g, c, d) || OpensFrame(g, c, d))
    ensures if |c.stack| < |d.stack| then CallTarget(OpsById(ir.operations), ir.edges, includeAsync, c.op, d.op)
            else SourceStep(ir, includeAsync, c.op, d.op)
  {
    if OpensFrame(g, c, d) {
      var a :| a in g.arcs && a.kind.CallEnter? && a.source == c.op && a.target == d.op;
      assert BuiltArc(OpsById(ir.operations), ir.edges, includeAsync, a);
    } else {
      ErasedStepIsSourceStep(g, ir, includeAsync, c.op, d.op);
    }
  }

  /** In a built graph, each return leaves a RETURN operation in the scope of a function the
      matched call can call, and lands on a raw successor of the call's host (of the call, when
      it has none). */
  lemma ReturnsLandOnHostSuccessors(
        g: View, ir: SemanticIR, includeAsync: bool, depth: nat, source: Id, cs: seq<Config>, arcs: seq<Jump>,
        j: nat)
    returns (k: nat)
    requires BuiltFrom(g, ir, includeAsync)
    requires RunFrom(g, depth, source, cs, arcs) && j < |arcs| && arcs[j].kind.CallReturn?
    ensures k < j && arcs[k].kind.CallEnter? && arcs[k].callId == arcs[j].callId == cs[k].op
    ensures cs[j + 1].stack == cs[k].stack
    ensures cs[j].op in g.ops && g.ops[cs[j].op].kind.Return? && g.ops[cs[j].op].scope == arcs[k].target
    ensures CallTarget(g.ops, ir.edges, includeAsync, cs[k].op, arcs[k].target)
    ensures RawEdge(g.ops, ir.edges, Anchor(g.ops, includeAsync, cs[k].op), cs[j + 1].op)
  {
    k := ReturnMatchesCall(g, depth, source, cs, arcs, j);
    assert Step(g, depth, cs[k], arcs[k], cs[k + 1]) && Step(g, depth, cs[j], arcs[j], cs[j + 1]);
    assert BuiltArc(g.ops, ir.edges, includeAsync, arcs[k]) && BuiltArc(g.ops, ir.edges, includeAsync, arcs[j]);
  }

  /** Other ways out of a resolved host than into one of its embedded calls. */
  ghost predicate HasOwnExit(ir: SemanticIR, includeAsync: bool, h: Id) {
    var ops := OpsById(ir.operations);
    && h in ops
    && (|| ops[h].kind.Function?
        || (exists f :: CallTarget(ops, ir.edges, includeAsync, h, f))
        || (ops[h].kind.Return? && exists c, k :: CallTarget(ops, ir.edges, includeAsync, c, ops[h].scope) &&
                                                  RawEdge(ops, ir.edges, Anchor(ops, includeAsync, c), k)))
  }

  /** Embedded calls own their host's continuation: every arc out of a resolved host goes to a
      call embedded in it, unless the host is a function, a resolved call, or a return that some
      call site can continue from. */
  lemma ResolvedHostsEnterTheirCalls(g: View, ir: SemanticIR, includeAsync: bool, h: Id)
    requires BuiltFrom(g, ir, includeAsync) && ResolvedHost(g.ops, ir.edges, includeAsync, h)
    ensures (forall a :: a in g.arcs && a.source == h ==>
               a.kind.EmbeddedCall? && HostOf(g.ops, includeAsync, a.target) == h)
            <==> !HasOwnExit(ir, includeAsync, h)
  {
    forall a | a in g.arcs && a.source == h && !a.kind.EmbeddedCall? ensures HasOwnExit(ir, includeAsync, h) {
      OtherArcIsOwnExit(ir, includeAsync, h, a);
    }
    if HasOwnExit(ir, includeAsync, h) {
      var a := OwnExit(ir, includeAsync, h);
      assert a in g.arcs;
    }
    forall a | a in g.arcs && a.source == h && a.kind.EmbeddedCall? ensures HostOf(g.ops, includeAsync, a.target) == h {
      assert BuiltArc(g.ops, ir.edges, includeAsync, a);
    }
  }

  lemma OtherArcIsOwnExit(ir: SemanticIR, includeAsync: bool, h: Id, a: Jump)
    requires ResolvedHost(OpsById(ir.operations), ir.edges, includeAsync, h)
    requires BuiltArc(OpsById(ir.operations), ir.edges, includeAsync, a) && a.source == h && !a.kind.EmbeddedCall?
    ensures HasOwnExit(ir, includeAsync, h)
  {
    var ops := OpsById(ir.operations);
    match a.kind
    case CallEnter => assert CallTarget(ops, ir.edges, includeAsync, h, a.target);
    case CallReturn =>
      assert CallTarget(ops, ir.edges, includeAsync, a.callId, ops[h].scope) &&
             RawEdge(ops, ir.edges, Anchor(ops, includeAsync, a.callId), a.target);
    case _ =>
  }

  lemma OwnExit(ir: SemanticIR, includeAsync: bool, h: Id) returns (a: Jump)
    requires HasOwnExit(ir, includeAsync, h)
    ensures BuiltArc(OpsById(ir.operations), ir.edges, includeAsync, a) && a.source == h && !a.kind.EmbeddedCall?
  {
    var ops := OpsById(ir.operations);
    if ops[h].kind.Function? {
      a := Jump(h, EntryOf(ops, ir.edges, h), FunctionEntry, NO_ID);
    } else if exists f :: CallTarget(ops, ir.edges, includeAsync, h, f) {
      var f :| CallTarget(ops, ir.edges, includeAsync, h, f);
      a := Jump(h, f, CallEnter, h);
    } else {
      var c, k :| CallTarget(ops, ir.edges, includeAsync, c, ops[h].scope) &&
        RawEdge(ops, ir.edges, Anchor(ops, includeAsync, c), k);
      a := Jump(h, k, CallReturn, c);
    }
  }
}
