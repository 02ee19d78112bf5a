/** The arcs of the interprocedural graph read off the program (smartbench/analysis/icfg.py). */
module IcfgReading {
  import opened Sequences
  import opened Ir
  import opened ControlFlow
  import opened Reading
  import opened IcfgRuns
  import opened IcfgSearch
  import opened Icfg

  /** The operation calls: an ordinary call, or where asked for a spawn or a registered cleanup. */
  predicate Caller(includeAsync: bool, op: Op) {
    op.kind == Call || (includeAsync && (op.kind == Spawn || op.kind == Defer))
  }

  /** A CALLS edge from the call to the function. */
  predicate LinksBy(includeAsync: bool, c: Id, f: Id, e: Edge, call: Op, callee: Op) {
    && e.kind == EdgeKind.Calls && e.source == c && e.target == f
    && call.id == c && Caller(includeAsync, call) && callee.id == f && callee.kind == Function
  }

  /** A call linked to a function. */
  ghost predicate CallsTo(ir: SemanticIR, includeAsync: bool, c: Id, f: Id) {
    exists e, call, callee ::
      e in ir.edges && call in ir.operations && callee in ir.operations && LinksBy(includeAsync, c, f, e, call, callee)
  }

  /** The edge says that a function contains an operation other than a parameter. */
  ghost predicate Contains(ir: SemanticIR, f: Id, e: Edge) {
    && e.kind == EdgeKind.Contains && e.source == f
    && (exists a :: a in ir.operations && a.id == f && a.kind == Function)
    && exists b :: b in ir.operations && b.id == e.target && b.kind != Parameter
  }

  /** x is what the first such edge contains, or the function itself if there is none. */
  ghost predicate EntersAt(ir: SemanticIR, f: Id, x: Id) {
    || (x == f && forall i :: 0 <= i < |ir.edges| ==> !Contains(ir, f, ir.edges[i]))
    || exists i ::
         && 0 <= i < |ir.edges| && Contains(ir, f, ir.edges[i]) && ir.edges[i].target == x
         && forall j :: 0 <= j < i ==> !Contains(ir, f, ir.edges[j])
  }

  /** A linked call is embedded in the operation. */
  ghost predicate HostsLinkedCall(ir: SemanticIR, includeAsync: bool, h: Id) {
    h != NO_ID && exists c, f ::
      c in ir.operations && Caller(includeAsync, c) && c.host == h && CallsTo(ir, includeAsync, c.id, f)
  }

  /** What comes after the call: what its host continues with, or the call itself. */
  ghost predicate Continues(ir: SemanticIR, includeAsync: bool, c: Id, next: Id) {
    exists call ::
      && call in ir.operations && call.id == c && Caller(includeAsync, call)
      && Reading.Step(ir, {}, Flows, if call.host != NO_ID then call.host else c, next)
  }

  // ---------- the order of arcs ----------

  /** The text of a kind of arc. */
  function ArcText(kind: ArcKind): string {
    match kind
    case CtrlFlow => "control_flow"
    case EmbeddedCall => "embedded_call"
    case CallEnter => "call_enter"
    case CallReturn => "call_return"
    case FunctionEntry => "function_entry"
  }

  lemma ArcTextsPart(k: ArcKind, l: ArcKind)
    requires ArcKindRank(k) < ArcKindRank(l)
    ensures Alphabetical(ArcText(k), ArcText(l))
  {
    if k.CallEnter? && l.CallReturn? {
      assert "call_enter"[..5] == "call_" && "call_return"[..5] == "call_";
      PartAt(ArcText(k), ArcText(l), 5);
    } else if l.CtrlFlow? {
      assert "call_enter"[..1] == "c" && "call_return"[..1] == "c" && "control_flow"[..1] == "c";
      PartAt(ArcText(k), ArcText(l), 1);
    } else {
      PartAt(ArcText(k), ArcText(l), 0);
    }
  }

  /** The arcs of an operation stand in the order of target, text of the kind, and call. */
  lemma JumpsAreAlphabetical(a: Jump, b: Jump)
    ensures JumpLeq(a, b) <==>
            || a.target < b.target
            || (a.target == b.target && Alphabetical(ArcText(a.kind), ArcText(b.kind)))
            || (a.target == b.target && a.kind == b.kind && a.callId <= b.callId)
  {
    if ArcKindRank(a.kind) < ArcKindRank(b.kind) {
      ArcTextsPart(a.kind, b.kind);
    } else if ArcKindRank(b.kind) < ArcKindRank(a.kind) {
      ArcTextsPart(b.kind, a.kind);
      NotBoth(ArcText(b.kind), ArcText(a.kind));
    } else {
      SameText(ArcText(a.kind));
    }
  }

  // ---------- the pieces ----------

  /** ops looks up the operations of the program. */
  ghost predicate LooksUp(ir: SemanticIR, ops: map<Id, Op>) {
    && (forall op :: op in ir.operations ==> op.id in ops && ops[op.id] == op)
    && forall id :: id in ops ==> ops[id] in ir.operations && ops[id].id == id
  }

  lemma OpsLookUp(ir: SemanticIR)
    requires UniqueIds(ir.operations)
    ensures LooksUp(ir, OpsById(ir.operations))
  {
    forall op | op in ir.operations
      ensures op.id in OpsById(ir.operations) && OpsById(ir.operations)[op.id] == op
    {
      UniqueLookup(ir.operations, op);
    }
  }

  lemma RawEdgeRead(ir: SemanticIR, ops: map<Id, Op>, u: Id, v: Id)
    requires LooksUp(ir, ops)
    ensures RawEdge(ops, ir.edges, u, v) <==> Reading.Step(ir, {}, Flows, u, v)
  {
    if RawEdge(ops, ir.edges, u, v) {
      var e :| e in ir.edges && Admitted(ops, e) && e.source == u && e.target == v;
      assert Joins({}, e, ops[u], ops[v]);
    }
    if Reading.Step(ir, {}, Flows, u, v) {
      var e, a, b :| e in ir.edges && a in ir.operations && b in ir.operations && Joins({}, e, a, b) &&
                     Flows(e.kind) && a.id == u && b.id == v;
      assert Admitted(ops, e);
    }
  }

  lemma CallTargetRead(ir: SemanticIR, ops: map<Id, Op>, includeAsync: bool, c: Id, f: Id)
    requires LooksUp(ir, ops)
    ensures CallTarget(ops, ir.edges, includeAsync, c, f) <==> CallsTo(ir, includeAsync, c, f)
  {
    if CallTarget(ops, ir.edges, includeAsync, c, f) {
      var e :| e in ir.edges && IsCallsEdge(ops, includeAsync, e) && e.source == c && e.target == f;
      assert LinksBy(includeAsync, c, f, e, ops[c], ops[f]);
    }
    if CallsTo(ir, includeAsync, c, f) {
      var e, call, callee :|
        e in ir.edges && call in ir.operations && callee in ir.operations &&
          LinksBy(includeAsync, c, f, e, call, callee);
      assert IsCallsEdge(ops, includeAsync, e);
    }
  }

  lemma EntryEdgeRead(ir: SemanticIR, ops: map<Id, Op>, f: Id, e: Edge)
    requires LooksUp(ir, ops)
    ensures IsEntryEdge(ops, e) && e.source == f <==> Contains(ir, f, e)
  {
    if IsEntryEdge(ops, e) {
      assert ops[e.source] in ir.operations && ops[e.target] in ir.operations;
    }
    if Contains(ir, f, e) {
      var a :| a in ir.operations && a.id == f && a.kind == Function;
      var b :| b in ir.operations && b.id == e.target && b.kind != Parameter;
    }
  }

  lemma EntryRead(ir: SemanticIR, ops: map<Id, Op>, f: Id, x: Id)
    requires LooksUp(ir, ops)
    ensures EntryOf(ops, ir.edges, f) == x <==> EntersAt(ir, f, x)
  {
    var first := (e: Edge) => IsEntryEdge(ops, e) && e.source == f;
    forall e ensures first(e) <==> Contains(ir, f, e) {
      EntryEdgeRead(ir, ops, f, e);
    }
    FirstContains(ir, f, first, Find(first, ir.edges), x);
  }

  lemma FirstContains(ir: SemanticIR, f: Id, first: Edge -> bool, found: Option<Edge>, x: Id)
    requires found == Find(first, ir.edges) && forall e :: first(e) <==> Contains(ir, f, e)
    ensures EntersAt(ir, f, x) <==> x == if found.Some? then found.value.target else f
  {
    if found.Some? {
      var i :| 0 <= i < |ir.edges| && ir.edges[i] == found.value && forall j :: 0 <= j < i ==> !first(ir.edges[j]);
      assert Contains(ir, f, ir.edges[i]);
    } else {
      forall i | 0 <= i < |ir.edges| ensures !Contains(ir, f, ir.edges[i]) {
        assert !first(ir.edges[i]);
      }
    }
  }

  lemma ResolvedHostRead(ir: SemanticIR, ops: map<Id, Op>, includeAsync: bool, h: Id)
    requires LooksUp(ir, ops)
    ensures ResolvedHost(ops, ir.edges, includeAsync, h) <==> HostsLinkedCall(ir, includeAsync, h)
  {
    if ResolvedHost(ops, ir.edges, includeAsync, h) {
      var c, f :| HostOf(ops, includeAsync, c) == h && CallTarget(ops, ir.edges, includeAsync, c, f);
      CallTargetRead(ir, ops, includeAsync, c, f);
      assert ops[c] in ir.operations && Caller(includeAsync, ops[c]) && ops[c].id == c;
    }
    if HostsLinkedCall(ir, includeAsync, h) {
      var c, f :|
        c in ir.operations && Caller(includeAsync, c) && c.host == h && CallsTo(ir, includeAsync, c.id, f);
      CallTargetRead(ir, ops, includeAsync, c.id, f);
      assert HostOf(ops, includeAsync, c.id) == h;
    }
  }

  lemma ContinuesRead(ir: SemanticIR, ops: map<Id, Op>, includeAsync: bool, c: Id, f: Id, next: Id)
    requires LooksUp(ir, ops) && CallTarget(ops, ir.edges, includeAsync, c, f)
    ensures RawEdge(ops, ir.edges, Anchor(ops, includeAsync, c), next) <==> Continues(ir, includeAsync, c, next)
  {
    RawEdgeRead(ir, ops, Anchor(ops, includeAsync, c), next);
    var call := ops[c];
    assert call in ir.operations && call.id == c && Caller(includeAsync, call);
    assert Anchor(ops, includeAsync, c) == if call.host != NO_ID then call.host else c;
  }

  // ---------- the arcs ----------

  ghost predicate EntryArc(ir: SemanticIR, a: Jump) {
    && (exists f :: f in ir.operations && f.id == a.source && f.kind == Function)
    && EntersAt(ir, a.source, a.target) && a.callId == NO_ID
  }

  ghost predicate ControlArc(ir: SemanticIR, includeAsync: bool, a: Jump) {
    Reading.Step(ir, {}, Flows, a.source, a.target) && !HostsLinkedCall(ir, includeAsync, a.source) && a.callId == NO_ID
  }

  ghost predicate EmbeddedArc(ir: SemanticIR, includeAsync: bool, a: Jump) {
    && a.callId == a.target && a.source != NO_ID && (exists h :: h in ir.operations && h.id == a.source)
    && exists c :: c in ir.operations && c.id == a.target && Caller(includeAsync, c) && c.host == a.source
  }

  ghost predicate ReturnArc(ir: SemanticIR, includeAsync: bool, a: Jump) {
    && Continues(ir, includeAsync, a.callId, a.target)
    && exists r :: r in ir.operations && r.id == a.source && r.kind == Return &&
                   CallsTo(ir, includeAsync, a.callId, r.scope)
  }

  /** The arcs of each kind, in terms of the program. */
  ghost predicate ArcOfProgram(ir: SemanticIR, includeAsync: bool, a: Jump) {
    match a.kind
    case FunctionEntry => EntryArc(ir, a)
    case CtrlFlow => ControlArc(ir, includeAsync, a)
    case EmbeddedCall => EmbeddedArc(ir, includeAsync, a)
    case CallEnter => a.callId == a.source && CallsTo(ir, includeAsync, a.source, a.target)
    case CallReturn => ReturnArc(ir, includeAsync, a)
  }

  /** Construction produces exactly the arcs of the program. */
  lemma ArcsRead(ir: SemanticIR, includeAsync: bool, g: View, a: Jump)
    requires UniqueIds(ir.operations) && BuiltFrom(g, ir, includeAsync)
    ensures a in g.arcs <==> ArcOfProgram(ir, includeAsync, a)
  {
    var ops := OpsById(ir.operations);
    OpsLookUp(ir);
    BuiltArcRead(ir, ops, includeAsync, a);
  }

  /** A built graph meets what the reading of its runs asks: enter arcs lead to linked functions. */
  lemma BuiltEntersTargets(ir: SemanticIR, includeAsync: bool, g: View)
    requires BuiltFrom(g, ir, includeAsync)
    ensures EntersTargets(g)
  {
    forall a | a in g.arcs ensures a.source in g.ops && a.target in g.ops {
      assert BuiltArc(OpsById(ir.operations), ir.edges, includeAsync, a);
    }
    forall a | a in g.arcs && a.kind.CallEnter? ensures a.target in Lookup(g.targets, a.callId) {
      assert BuiltArc(OpsById(ir.operations), ir.edges, includeAsync, a);
    }
  }

  lemma BuiltArcRead(ir: SemanticIR, ops: map<Id, Op>, includeAsync: bool, a: Jump)
    requires LooksUp(ir, ops)
    ensures BuiltArc(ops, ir.edges, includeAsync, a) <==> ArcOfProgram(ir, includeAsync, a)
  {
    match a.kind {
      case FunctionEntry =>
        EntryRead(ir, ops, a.source, a.target);
        assert a.source in ops ==> ops[a.source] in ir.operations;
      case CtrlFlow =>
        RawEdgeRead(ir, ops, a.source, a.target);
        ResolvedHostRead(ir, ops, includeAsync, a.source);
      case EmbeddedCall => EmbeddedArcRead(ir, ops, includeAsync, a);
      case CallEnter => CallTargetRead(ir, ops, includeAsync, a.source, a.target);
      case CallReturn => ReturnArcRead(ir, ops, includeAsync, a);
    }
  }

  lemma EmbeddedArcRead(ir: SemanticIR, ops: map<Id, Op>, includeAsync: bool, a: Jump)
    requires LooksUp(ir, ops)
    ensures BuiltEmbedded(ops, includeAsync, a) <==> EmbeddedArc(ir, includeAsync, a)
  {
    if BuiltEmbedded(ops, includeAsync, a) {
      assert ops[a.source] in ir.operations && ops[a.target] in ir.operations;
    }
  }

  lemma ReturnArcRead(ir: SemanticIR, ops: map<Id, Op>, includeAsync: bool, a: Jump)
    requires LooksUp(ir, ops)
    ensures BuiltReturn(ops, ir.edges, includeAsync, a) <==> ReturnArc(ir, includeAsync, a)
  {
    if BuiltReturn(ops, ir.edges, includeAsync, a) {
      CallTargetRead(ir, ops, includeAsync, a.callId, ops[a.source].scope);
      ContinuesRead(ir, ops, includeAsync, a.callId, ops[a.source].scope, a.target);
      assert ops[a.source] in ir.operations;
    }
    if ReturnArc(ir, includeAsync, a) {
      var r :| r in ir.operations && r.id == a.source && r.kind == Return &&
               CallsTo(ir, includeAsync, a.callId, r.scope);
      CallTargetRead(ir, ops, includeAsync, a.callId, r.scope);
      ContinuesRead(ir, ops, includeAsync, a.callId, r.scope, a.target);
    }
  }
}
