/** The bounded interprocedural control-flow graph (smartbench/analysis/icfg.py):
    construction from the IR, and the path query. */
module Icfg {
  import opened Sequences
  import opened Ir
  import opened ControlFlow
  import opened IcfgRuns
  import opened IcfgSearch
  import Shortlex

  const MAX_CALL_DEPTH: nat := 16
  const MAX_STEPS: nat := 100_000

  // ---------- what construction means, read off the IR ----------

  predicate IsCallOp(op: Op, includeAsync: bool) {
    op.kind.Call? || (includeAsync && (op.kind.Spawn? || op.kind.Defer?))
  }

  predicate IsCallsEdge(ops: map<Id, Op>, includeAsync: bool, e: Edge) {
    && e.kind.Calls? && e.source in ops && e.target in ops
    && IsCallOp(ops[e.source], includeAsync) && ops[e.target].kind.Function?
  }

  predicate IsEntryEdge(ops: map<Id, Op>, e: Edge) {
    && e.kind.Contains? && e.source in ops && e.target in ops
    && ops[e.source].kind.Function? && !ops[e.target].kind.Parameter?
  }

  ghost predicate RawEdge(ops: map<Id, Op>, edges: seq<Edge>, u: Id, v: Id) {
    exists e :: e in edges && Admitted(ops, e) && e.source == u && e.target == v
  }

  ghost predicate CallTarget(ops: map<Id, Op>, edges: seq<Edge>, includeAsync: bool, c: Id, f: Id) {
    exists e :: e in edges && IsCallsEdge(ops, includeAsync, e) && e.source == c && e.target == f
  }

  /** The first contained non-parameter operation, else the function itself. */
  function EntryOf(ops: map<Id, Op>, edges: seq<Edge>, f: Id): Id {
    match Find((e: Edge) => IsEntryEdge(ops, e) && e.source == f, edges)
    case Some(e) => e.target
    case None => f
  }

  function HostOf(ops: map<Id, Op>, includeAsync: bool, c: Id): Id {
    if c in ops && IsCallOp(ops[c], includeAsync) then ops[c].host else NO_ID
  }

  /** The operation that owns a call's continuation: its host, or the call itself. */
  function Anchor(ops: map<Id, Op>, includeAsync: bool, c: Id): Id {
    var host := HostOf(ops, includeAsync, c);
    if host != NO_ID then host else c
  }

  ghost predicate ResolvedHost(ops: map<Id, Op>, edges: seq<Edge>, includeAsync: bool, h: Id) {
    h != NO_ID && exists c, f :: HostOf(ops, includeAsync, c) == h && CallTarget(ops, edges, includeAsync, c, f)
  }

  ghost predicate BuiltEntry(ops: map<Id, Op>, edges: seq<Edge>, a: Jump) {
    && a.source in ops && ops[a.source].kind.Function?
    && a.target == EntryOf(ops, edges, a.source) && a.callId == NO_ID
  }

  ghost predicate BuiltControl(ops: map<Id, Op>, edges: seq<Edge>, includeAsync: bool, a: Jump) {
    && RawEdge(ops, edges, a.source, a.target) && !ResolvedHost(ops, edges, includeAsync, a.source)
    && a.callId == NO_ID
  }

  ghost predicate BuiltEmbedded(ops: map<Id, Op>, includeAsync: bool, a: Jump) {
    && a.callId == a.target && a.target in ops && IsCallOp(ops[a.target], includeAsync)
    && a.source == ops[a.target].host && a.source != NO_ID && a.source in ops
  }

  ghost predicate BuiltEnter(ops: map<Id, Op>, edges: seq<Edge>, includeAsync: bool, a: Jump) {
    a.callId == a.source && CallTarget(ops, edges, includeAsync, a.source, a.target)
  }

  ghost predicate BuiltReturn(ops: map<Id, Op>, edges: seq<Edge>, includeAsync: bool, a: Jump) {
    && a.source in ops && ops[a.source].kind.Return?
    && CallTarget(ops, edges, includeAsync, a.callId, ops[a.source].scope)
    && RawEdge(ops, edges, Anchor(ops, includeAsync, a.callId), a.target)
  }

  /** Exactly the arcs construction produces. */
  ghost predicate BuiltArc(ops: map<Id, Op>, edges: seq<Edge>, includeAsync: bool, a: Jump) {
    match a.kind
    case FunctionEntry => BuiltEntry(ops, edges, a)
    case CtrlFlow => BuiltControl(ops, edges, includeAsync, a)
    case EmbeddedCall => BuiltEmbedded(ops, includeAsync, a)
    case CallEnter => BuiltEnter(ops, edges, includeAsync, a)
    case CallReturn => BuiltReturn(ops, edges, includeAsync, a)
  }

  /** The view a constructor call must produce. */
  ghost predicate BuiltFrom(g: View, ir: SemanticIR, includeAsync: bool) {
    var ops := OpsById(ir.operations);
    && g.ops == ops
    && (forall a :: a in g.arcs <==> BuiltArc(ops, ir.edges, includeAsync, a))
    && (forall c: Id, f: Id :: f in Lookup(g.targets, c) <==> CallTarget(ops, ir.edges, includeAsync, c, f))
    && (forall c :: c in g.targets ==> g.targets[c] != [])
    && (forall c, v: Id :: c in g.targets ==>
          (v in Lookup(g.continuations, c) <==> RawEdge(ops, ir.edges, Anchor(ops, includeAsync, c), v)))
  }

  // ---------- scanning the edges ----------

  lemma RawEdgeOneMore(ops: map<Id, Op>, edges: seq<Edge>, e: Edge)
    ensures forall u: Id, v: Id :: RawEdge(ops, edges + [e], u, v) <==>
                                   RawEdge(ops, edges, u, v) || (Admitted(ops, e) && e.source == u && e.target == v)
  {
    forall u: Id, v: Id | Admitted(ops, e) && e.source == u && e.target == v ensures RawEdge(ops, edges + [e], u, v) {
      assert e in edges + [e];
    }
  }

  lemma CallTargetOneMore(ops: map<Id, Op>, edges: seq<Edge>, includeAsync: bool, e: Edge)
    ensures forall c: Id, f: Id :: CallTarget(ops, edges + [e], includeAsync, c, f) <==>
                                   CallTarget(ops, edges, includeAsync, c, f) ||
                                   (IsCallsEdge(ops, includeAsync, e) && e.source == c && e.target == f)
  {
    forall c: Id, f: Id | IsCallsEdge(ops, includeAsync, e) && e.source == c && e.target == f
      ensures CallTarget(ops, edges + [e], includeAsync, c, f)
    {
      assert e in edges + [e];
    }
  }

  lemma {:induction false} EntryOneMore(ops: map<Id, Op>, edges: seq<Edge>, e: Edge, f: Id)
    ensures EntryOf(ops, edges + [e], f) ==
            if exists x :: x in edges && IsEntryEdge(ops, x) && x.source == f then EntryOf(ops, edges, f)
            else if IsEntryEdge(ops, e) && e.source == f then e.target else f
    decreases |edges|
  {
    if edges == [] {
      assert edges + [e] == [e] && [e][1..] == [];
    } else {
      assert (edges + [e])[0] == edges[0] && (edges + [e])[1..] == edges[1..] + [e];
      EntryOneMore(ops, edges[1..], e, f);
      assert forall x :: x in edges <==> x == edges[0] || x in edges[1..];
    }
  }

  /** What the scan has recorded after a prefix of the edges. */
  ghost predicate Scanned(
    ops: map<Id, Op>, edges: seq<Edge>, continuations: map<Id, seq<Id>>, raw: seq<(Id, Id)>)
  {
    && (forall u: Id, v: Id :: v in Lookup(continuations, u) <==> RawEdge(ops, edges, u, v))
    && (forall u: Id, v: Id :: (u, v) in raw <==> RawEdge(ops, edges, u, v))
  }

  ghost predicate TargetsScanned(ops: map<Id, Op>, edges: seq<Edge>, includeAsync: bool, targets: map<Id, seq<Id>>) {
    && (forall c: Id, f: Id :: f in Lookup(targets, c) <==> CallTarget(ops, edges, includeAsync, c, f))
    && (forall c :: c in targets ==> targets[c] != [])
  }

  ghost predicate EntriesScanned(ops: map<Id, Op>, edges: seq<Edge>, entries: map<Id, Id>) {
    forall f: Id ::
      && (f in entries <==> exists e :: e in edges && IsEntryEdge(ops, e) && e.source == f)
      && (f in entries ==> entries[f] == EntryOf(ops, edges, f))
  }

  function AddTarget(ops: map<Id, Op>, includeAsync: bool, targets: map<Id, seq<Id>>, e: Edge): map<Id, seq<Id>> {
    if IsCallsEdge(ops, includeAsync, e) && e.target !in Lookup(targets, e.source)
    then targets[e.source := Sort((a: Id, b: Id) => a <= b, Lookup(targets, e.source) + [e.target])]
    else targets
  }

  lemma AddTargetScans(ops: map<Id, Op>, edges: seq<Edge>, includeAsync: bool, targets: map<Id, seq<Id>>, e: Edge)
    requires TargetsScanned(ops, edges, includeAsync, targets)
    ensures TargetsScanned(ops, edges + [e], includeAsync, AddTarget(ops, includeAsync, targets, e))
  {
    CallTargetOneMore(ops, edges, includeAsync, e);
    SortKeepsElements((a: Id, b: Id) => a <= b, Lookup(targets, e.source) + [e.target]);
    var next := AddTarget(ops, includeAsync, targets, e);
    forall c: Id, f: Id ensures f in Lookup(next, c) <==> CallTarget(ops, edges + [e], includeAsync, c, f) {
      if IsCallsEdge(ops, includeAsync, e) && e.target !in Lookup(targets, e.source) && c == e.source {
        assert f in Lookup(next, c) <==> f in Lookup(targets, e.source) + [e.target];
      }
    }
  }

  /** setdefault: the first entry edge of a function wins. */
  function AddEntry(ops: map<Id, Op>, entries: map<Id, Id>, e: Edge): map<Id, Id> {
    if IsEntryEdge(ops, e) && e.source !in entries then entries[e.source := e.target] else entries
  }

  lemma AddEntryScans(ops: map<Id, Op>, edges: seq<Edge>, entries: map<Id, Id>, e: Edge)
    requires EntriesScanned(ops, edges, entries)
    ensures EntriesScanned(ops, edges + [e], AddEntry(ops, entries, e))
  {
    var next := AddEntry(ops, entries, e);
    assert e in edges + [e];
    forall f: Id ensures
      && (f in next <==> exists x :: x in edges + [e] && IsEntryEdge(ops, x) && x.source == f)
      && (f in next ==> next[f] == EntryOf(ops, edges + [e], f))
    {
      EntryOneMore(ops, edges, e, f);
      assert forall x :: x in edges + [e] <==> x == e || x in edges;
    }
  }

  function AddContinuation(ops: map<Id, Op>, continuations: map<Id, seq<Id>>, e: Edge): map<Id, seq<Id>> {
    if Admitted(ops, e) then Push(continuations, e.source, e.target) else continuations
  }

  function AddRaw(ops: map<Id, Op>, raw: seq<(Id, Id)>, e: Edge): seq<(Id, Id)> {
    if Admitted(ops, e) then raw + [(e.source, e.target)] else raw
  }

  lemma AddRawScans(ops: map<Id, Op>, edges: seq<Edge>, continuations: map<Id, seq<Id>>, raw: seq<(Id, Id)>, e: Edge)
    requires Scanned(ops, edges, continuations, raw)
    ensures Scanned(ops, edges + [e], AddContinuation(ops, continuations, e), AddRaw(ops, raw, e))
  {
    RawEdgeOneMore(ops, edges, e);
  }

  function RawOf(ops: map<Id, Op>, edges: seq<Edge>): seq<(Id, Id)>
    decreases |edges|
  {
    if edges == [] then [] else AddRaw(ops, RawOf(ops, edges[..|edges| - 1]), edges[|edges| - 1])
  }

  function HostContinuationsOf(ops: map<Id, Op>, edges: seq<Edge>): map<Id, seq<Id>>
    decreases |edges|
  {
    if edges == [] then map[]
    else AddContinuation(ops, HostContinuationsOf(ops, edges[..|edges| - 1]), edges[|edges| - 1])
  }

  function FirstEntriesOf(ops: map<Id, Op>, edges: seq<Edge>): map<Id, Id>
    decreases |edges|
  {
    if edges == [] then map[] else AddEntry(ops, FirstEntriesOf(ops, edges[..|edges| - 1]), edges[|edges| - 1])
  }

  function TargetsOf(ops: map<Id, Op>, edges: seq<Edge>, includeAsync: bool): map<Id, seq<Id>>
    decreases |edges|
  {
    if edges == [] then map[]
    else AddTarget(ops, includeAsync, TargetsOf(ops, edges[..|edges| - 1], includeAsync), edges[|edges| - 1])
  }

  lemma {:induction false} ScansMean(ops: map<Id, Op>, edges: seq<Edge>, includeAsync: bool)
    ensures Scanned(ops, edges, HostContinuationsOf(ops, edges), RawOf(ops, edges))
    ensures EntriesScanned(ops, edges, FirstEntriesOf(ops, edges))
    ensures TargetsScanned(ops, edges, includeAsync, TargetsOf(ops, edges, includeAsync))
    decreases |edges|
  {
    if edges != [] {
      SplitLast(edges);
      var rest, e := edges[..|edges| - 1], edges[|edges| - 1];
      ScansMean(ops, rest, includeAsync);
      AddRawScans(ops, rest, HostContinuationsOf(ops, rest), RawOf(ops, rest), e);
      AddEntryScans(ops, rest, FirstEntriesOf(ops, rest), e);
      AddTargetScans(ops, rest, includeAsync, TargetsOf(ops, rest, includeAsync), e);
    }
  }

  /** The loop over operation_edges in _build. */
  method ScanEdges(ops: map<Id, Op>, edges: seq<Edge>, includeAsync: bool)
    returns (continuations: map<Id, seq<Id>>, raw: seq<(Id, Id)>, entries: map<Id, Id>, targets: map<Id, seq<Id>>)
    ensures continuations == HostContinuationsOf(ops, edges) && raw == RawOf(ops, edges)
    ensures entries == FirstEntriesOf(ops, edges) && targets == TargetsOf(ops, edges, includeAsync)
    ensures Scanned(ops, edges, continuations, raw)
    ensures EntriesScanned(ops, edges, entries)
    ensures TargetsScanned(ops, edges, includeAsync, targets)
  {
    continuations, raw, entries, targets := map[], [], map[], map[];
    for i := 0 to |edges|
      invariant continuations == HostContinuationsOf(ops, edges[..i]) && raw == RawOf(ops, edges[..i])
      invariant entries == FirstEntriesOf(ops, edges[..i]) && targets == TargetsOf(ops, edges[..i], includeAsync)
    {
      var e := edges[i];
      assert edges[..i + 1][..i] == edges[..i];
      continuations, raw := AddContinuation(ops, continuations, e), AddRaw(ops, raw, e);
      entries := AddEntry(ops, entries, e);
      targets := AddTarget(ops, includeAsync, targets, e);
    }
    assert edges[..|edges|] == edges;
    ScansMean(ops, edges, includeAsync);
  }

  // ---------- collecting arcs ----------

  ghost predicate Holds(succ: map<Id, seq<Jump>>, arcs: set<Jump>) {
    forall a, id :: a in Lookup(succ, id) <==> a in arcs && a.source == id
  }

  lemma PushHolds(succ: map<Id, seq<Jump>>, arcs: set<Jump>, j: Jump)
    requires Holds(succ, arcs)
    ensures Holds(Push(succ, j.source, j), arcs + {j})
  {}

  function Pushed(jumps: seq<Jump>): map<Id, seq<Jump>>
    decreases |jumps|
  {
    if jumps == [] then map[] else Push(Pushed(jumps[..|jumps| - 1]), jumps[|jumps| - 1].source, jumps[|jumps| - 1])
  }

  /** Appends each arc to its source's list. */
  method AddJumps(jumps: seq<Jump>) returns (succ: map<Id, seq<Jump>>)
    ensures Holds(succ, SetOf(jumps)) && succ == Pushed(jumps)
  {
    succ := map[];
    for i := 0 to |jumps|
      invariant Holds(succ, SetOf(jumps[..i])) && succ == Pushed(jumps[..i])
    {
      assert jumps[..i + 1] == jumps[..i] + [jumps[i]] && jumps[..i + 1][..i] == jumps[..i];
      PushHolds(succ, SetOf(jumps[..i]), jumps[i]);
      assert SetOf(jumps[..i + 1]) == SetOf(jumps[..i]) + {jumps[i]};
      succ := Push(succ, jumps[i].source, jumps[i]);
    }
    assert jumps[..|jumps|] == jumps;
  }

  function EntryJump(entries: map<Id, Id>, op: Op): Jump {
    Jump(op.id, if op.id in entries then entries[op.id] else op.id, FunctionEntry, NO_ID)
  }

  /** Function operations enter their first contained operation. */
  function EntryJumps(operations: seq<Op>, entries: map<Id, Id>): seq<Jump> {
    MapSeq((op: Op) => EntryJump(entries, op), Filter((op: Op) => op.kind.Function?, operations))
  }

  function ControlJumps(raw: seq<(Id, Id)>, resolvedHosts: set<Id>): seq<Jump> {
    MapSeq((e: (Id, Id)) => Jump(e.0, e.1, CtrlFlow, NO_ID), Filter((e: (Id, Id)) => e.0 !in resolvedHosts, raw))
  }

  function EmbeddedJumps(ops: map<Id, Op>, hosts: map<Id, Id>): seq<Jump> {
    MapSeq((c: Id) => Jump(if c in hosts then hosts[c] else NO_ID, c, EmbeddedCall, c),
           Filter((c: Id) => c in hosts && hosts[c] != NO_ID && hosts[c] in ops, SortedSet(hosts.Keys)))
  }

  function EntersOf(c: Id, functions: seq<Id>): seq<Jump> {
    MapSeq((f: Id) => Jump(c, f, CallEnter, c), functions)
  }

  function EnterJumpsFrom(targets: map<Id, seq<Id>>, calls: seq<Id>): seq<Jump>
    decreases |calls|
  {
    if calls == [] then []
    else
      var c: Id := calls[|calls| - 1];
      EnterJumpsFrom(targets, calls[..|calls| - 1]) + EntersOf(c, Lookup(targets, c))
  }

  /** The loops over _call_targets that append CALL_ENTER arcs. */
  method EnterJumps(targets: map<Id, seq<Id>>, calls: seq<Id>) returns (jumps: seq<Jump>)
    ensures jumps == EnterJumpsFrom(targets, calls)
  {
    jumps := [];
    for i := 0 to |calls|
      invariant jumps == EnterJumpsFrom(targets, calls[..i])
    {
      assert calls[..i + 1][..i] == calls[..i];
      jumps := jumps + EntersOf(calls[i], Lookup(targets, calls[i]));
    }
    assert calls[..|calls|] == calls;
  }

  lemma {:induction false} EnterJumpsAre(targets: map<Id, seq<Id>>, calls: seq<Id>, a: Jump)
    ensures a in EnterJumpsFrom(targets, calls) <==>
            a.kind.CallEnter? && a.callId == a.source && a.source in calls && a.target in Lookup(targets, a.source)
    decreases |calls|
  {
    if calls != [] {
      SplitLast(calls);
      EnterJumpsAre(targets, calls[..|calls| - 1], a);
    }
  }

  ghost predicate IsReturnOf(ops: map<Id, Op>, targets: map<Id, seq<Id>>, c: Id, r: Id) {
    r in ops && ops[r].kind.Return? && ops[r].scope in Lookup(targets, c)
  }

  function ReturnsFrom(ops: map<Id, Op>, targets: map<Id, seq<Id>>, continuations: seq<Id>, c: Id,
          ids: seq<Id>): seq<Jump>
    decreases |ids|
  {
    if ids == [] then []
    else
      var r: Id := ids[|ids| - 1];
      ReturnsFrom(ops, targets, continuations, c, ids[..|ids| - 1]) +
      (if r in ops && ops[r].kind.Return? && ops[r].scope in Lookup(targets, c)
       then MapSeq((k: Id) => Jump(r, k, CallReturn, c), continuations) else [])
  }

  /** Return operations of the call's targets, to each continuation of the call. */
  method ReturnsOf(ops: map<Id, Op>, targets: map<Id, seq<Id>>, continuations: seq<Id>, c: Id)
    returns (jumps: seq<Jump>)
    ensures jumps == ReturnsFrom(ops, targets, continuations, c, SortedSet(ops.Keys))
  {
    jumps := [];
    var ids := SortedSet(ops.Keys);
    for i := 0 to |ids|
      invariant jumps == ReturnsFrom(ops, targets, continuations, c, ids[..i])
    {
      var r := ids[i];
      assert ids[..i + 1][..i] == ids[..i] && r in ids;
      if !ops[r].kind.Return? || ops[r].scope !in Lookup(targets, c) {
        continue;
      }
      jumps := jumps + MapSeq((k: Id) => Jump(r, k, CallReturn, c), continuations);
    }
    assert ids[..|ids|] == ids;
  }

  lemma {:induction false} ReturnsAre(
        ops: map<Id, Op>, targets: map<Id, seq<Id>>, continuations: seq<Id>, c: Id, ids: seq<Id>, a: Jump)
    ensures a in ReturnsFrom(ops, targets, continuations, c, ids) <==>
            && a.kind.CallReturn? && a.callId == c && a.source in ids && a.target in continuations
            && IsReturnOf(ops, targets, c, a.source)
    decreases |ids|
  {
    if ids != [] {
      SplitLast(ids);
      ReturnsAre(ops, targets, continuations, c, ids[..|ids| - 1], a);
    }
  }

  function ReturnJumpsFrom(
        ops: map<Id, Op>, targets: map<Id, seq<Id>>, continuations: map<Id, seq<Id>>, calls: seq<Id>): seq<Jump>
    decreases |calls|
  {
    if calls == [] then []
    else
      var c: Id := calls[|calls| - 1];
      ReturnJumpsFrom(ops, targets, continuations, calls[..|calls| - 1]) +
      ReturnsFrom(ops, targets, Lookup(continuations, c), c, SortedSet(ops.Keys))
  }

  method ReturnJumps(ops: map<Id, Op>, targets: map<Id, seq<Id>>, continuations: map<Id, seq<Id>>, calls: seq<Id>)
    returns (jumps: seq<Jump>)
    ensures jumps == ReturnJumpsFrom(ops, targets, continuations, calls)
  {
    jumps := [];
    for i := 0 to |calls|
      invariant jumps == ReturnJumpsFrom(ops, targets, continuations, calls[..i])
    {
      assert calls[..i + 1][..i] == calls[..i];
      var more := ReturnsOf(ops, targets, Lookup(continuations, calls[i]), calls[i]);
      jumps := jumps + more;
    }
    assert calls[..|calls|] == calls;
  }

  lemma {:induction false} ReturnJumpsAre(
        ops: map<Id, Op>, targets: map<Id, seq<Id>>, continuations: map<Id, seq<Id>>, calls: seq<Id>, a: Jump)
    ensures a in ReturnJumpsFrom(ops, targets, continuations, calls) <==>
            && a.kind.CallReturn? && a.callId in calls && IsReturnOf(ops, targets, a.callId, a.source)
            && a.target in Lookup(continuations, a.callId)
    decreases |calls|
  {
    if calls != [] {
      SplitLast(calls);
      var c := calls[|calls| - 1];
      ReturnJumpsAre(ops, targets, continuations, calls[..|calls| - 1], a);
      ReturnsAre(ops, targets, Lookup(continuations, c), c, SortedSet(ops.Keys), a);
    }
  }

  lemma EntryJumpsAre(sorted: seq<Op>, entries: map<Id, Id>, a: Jump)
    ensures a in EntryJumps(sorted, entries) <==> exists op ::
            op in sorted && op.kind.Function? && EntryJump(entries, op) == a
  {
    var functions := Filter((op: Op) => op.kind.Function?, sorted);
    var jumps := EntryJumps(sorted, entries);
    if a in jumps {
      var i :| 0 <= i < |jumps| && jumps[i] == a;
      assert functions[i] in functions;
    }
    if op :| op in sorted && op.kind.Function? && EntryJump(entries, op) == a {
      assert op in functions;
    }
  }

  lemma EntryJumpsMeaning(operations: seq<Op>, edges: seq<Edge>, entries: map<Id, Id>, a: Jump)
    requires UniqueIds(operations) && EntriesScanned(OpsById(operations), edges, entries)
    ensures a in EntryJumps(SortOps(operations), entries) <==>
            a.kind.FunctionEntry? && BuiltEntry(OpsById(operations), edges, a)
  {
    EntryTarget(OpsById(operations), edges, entries, a.source);
    EntryJumpsAre(SortOps(operations), entries, a);
    SortedLookup(operations);
  }

  lemma EntryTarget(ops: map<Id, Op>, edges: seq<Edge>, entries: map<Id, Id>, f: Id)
    requires EntriesScanned(ops, edges, entries)
    ensures (if f in entries then entries[f] else f) == EntryOf(ops, edges, f)
  {
    if f !in entries { NoEntryEdge(ops, edges, f); }
  }

  lemma NoEntryEdge(ops: map<Id, Op>, edges: seq<Edge>, f: Id)
    requires !exists e :: e in edges && IsEntryEdge(ops, e) && e.source == f
    ensures EntryOf(ops, edges, f) == f
  {}

  lemma ControlJumpsMeaning(
        ops: map<Id, Op>, edges: seq<Edge>, includeAsync: bool, continuations: map<Id, seq<Id>>,
        raw: seq<(Id, Id)>, hosts: set<Id>, a: Jump)
    requires Scanned(ops, edges, continuations, raw)
    requires forall h :: h in hosts <==> ResolvedHost(ops, edges, includeAsync, h)
    ensures a in ControlJumps(raw, hosts) <==> a.kind.CtrlFlow? && BuiltControl(ops, edges, includeAsync, a)
  {
    var kept := Filter((e: (Id, Id)) => e.0 !in hosts, raw);
    if a in ControlJumps(raw, hosts) {
      var i :| 0 <= i < |kept| && ControlJumps(raw, hosts)[i] == a;
      assert kept[i] in kept;
    }
    if a.kind.CtrlFlow? && BuiltControl(ops, edges, includeAsync, a) {
      assert (a.source, a.target) in kept;
    }
  }

  ghost predicate HostsScanned(ops: map<Id, Op>, includeAsync: bool, hosts: map<Id, Id>) {
    forall c: Id :: (c in hosts <==> c in ops && IsCallOp(ops[c], includeAsync)) &&
      (c in hosts ==> hosts[c] == ops[c].host)
  }

  lemma EmbeddedJumpsMeaning(ops: map<Id, Op>, includeAsync: bool, hosts: map<Id, Id>, a: Jump)
    requires HostsScanned(ops, includeAsync, hosts)
    ensures a in EmbeddedJumps(ops, hosts) <==> a.kind.EmbeddedCall? && BuiltEmbedded(ops, includeAsync, a)
  {
    var kept := Filter((c: Id) => c in hosts && hosts[c] != NO_ID && hosts[c] in ops, SortedSet(hosts.Keys));
    if a in EmbeddedJumps(ops, hosts) {
      var i :| 0 <= i < |kept| && EmbeddedJumps(ops, hosts)[i] == a;
      assert kept[i] in kept;
    }
    if a.kind.EmbeddedCall? && BuiltEmbedded(ops, includeAsync, a) {
      assert a.target in kept;
    }
  }

  ghost predicate ContinuationsScanned(
        ops: map<Id, Op>, edges: seq<Edge>, includeAsync: bool, targets: map<Id, seq<Id>>,
        continuations: map<Id, seq<Id>>) {
    forall c, v: Id :: c in targets ==>
      (v in Lookup(continuations, c) <==> RawEdge(ops, edges, Anchor(ops, includeAsync, c), v))
  }

  lemma SortedLookup(operations: seq<Op>)
    requires UniqueIds(operations)
    ensures forall op :: op in SortOps(operations) ==> op.id in OpsById(operations) && OpsById(operations)[op.id] == op
    ensures forall c :: c in OpsById(operations) ==> OpsById(operations)[c] in SortOps(operations)
  {
    forall op | op in SortOps(operations) ensures op.id in OpsById(operations) && OpsById(operations)[op.id] == op {
      UniqueLookup(operations, op);
    }
  }

  function HostsOf(sorted: seq<Op>, includeAsync: bool): map<Id, Id>
    decreases |sorted|
  {
    if sorted == [] then map[]
    else
      var before, op := HostsOf(sorted[..|sorted| - 1], includeAsync), sorted[|sorted| - 1];
      if IsCallOp(op, includeAsync) then before[op.id := op.host] else before
  }

  /** The first loop of _build: hosts of the operations that may call. */
  method ScanHosts(ghost ops: map<Id, Op>, sorted: seq<Op>, includeAsync: bool) returns (hosts: map<Id, Id>)
    requires forall op :: op in sorted ==> op.id in ops && ops[op.id] == op
    requires forall c :: c in ops ==> ops[c].id == c && ops[c] in sorted
    ensures HostsScanned(ops, includeAsync, hosts) && hosts == HostsOf(sorted, includeAsync)
  {
    hosts := map[];
    ghost var seen: set<Id> := {};
    for i := 0 to |sorted|
      invariant hosts == HostsOf(sorted[..i], includeAsync)
      invariant forall j :: 0 <= j < i ==> sorted[j].id in seen
      invariant forall c :: c in seen ==> c in ops
      invariant forall c: Id ::
                  && (c in hosts <==> c in seen && IsCallOp(ops[c], includeAsync))
                  && (c in hosts ==> hosts[c] == ops[c].host)
    {
      var op := sorted[i];
      assert op in sorted && sorted[..i + 1][..i] == sorted[..i];
      seen := seen + {op.id};
      if IsCallOp(op, includeAsync) {
        hosts := hosts[op.id := op.host];
      }
    }
    assert sorted[..|sorted|] == sorted;
    forall c | c in ops ensures c in seen {
      assert ops[c] in sorted;
    }
  }

  lemma ResolvedHostsMeaning(
        ops: map<Id, Op>, edges: seq<Edge>, includeAsync: bool, hosts: map<Id, Id>, targets: map<Id, seq<Id>>,
        h: Id)
    requires HostsScanned(ops, includeAsync, hosts) && TargetsScanned(ops, edges, includeAsync, targets)
    ensures (h != NO_ID && exists c {:trigger hosts[c]} :: c in hosts && c in targets && hosts[c] == h) <==>
            ResolvedHost(ops, edges, includeAsync, h)
  {
    if h != NO_ID && exists c :: c in hosts && c in targets && hosts[c] == h {
      var c :| c in hosts && c in targets && hosts[c] == h;
      assert targets[c][0] in Lookup(targets, c);
      assert CallTarget(ops, edges, includeAsync, c, targets[c][0]);
    }
    if ResolvedHost(ops, edges, includeAsync, h) {
      var c, f :| HostOf(ops, includeAsync, c) == h && CallTarget(ops, edges, includeAsync, c, f);
      assert f in Lookup(targets, c);
    }
  }

  /** _continuations: the sorted raw successors of the call's host, or of a hostless call. */
  function ContinuationsOf(hosts: map<Id, Id>, hostContinuations: map<Id, seq<Id>>, c: Id): seq<Id> {
    var host := if c in hosts then hosts[c] else NO_ID;
    var values := Lookup(hostContinuations, if host != NO_ID then host else c);
    SortedSet(set v | v in values)
  }

  lemma ContinuationsMeaning(
        ops: map<Id, Op>, edges: seq<Edge>, includeAsync: bool, hosts: map<Id, Id>,
        hostContinuations: map<Id, seq<Id>>, raw: seq<(Id, Id)>, c: Id)
    requires HostsScanned(ops, includeAsync, hosts) && Scanned(ops, edges, hostContinuations, raw)
    ensures forall v :: v in ContinuationsOf(hosts, hostContinuations, c) <==>
            RawEdge(ops, edges, Anchor(ops, includeAsync, c), v)
  {
    assert c !in hosts ==> HostOf(ops, includeAsync, c) == NO_ID;
  }

  ghost predicate JumpsInOrder(m: map<Id, seq<Jump>>) {
    forall id :: id in m ==> SortedBy(JumpLeq, m[id])
  }

  function SortJumpLists(m: map<Id, seq<Jump>>): map<Id, seq<Jump>> {
    map id | id in m :: Sort(JumpLeq, m[id])
  }

  lemma SortJumpListsKeeps(succ: map<Id, seq<Jump>>, arcs: set<Jump>)
    requires Holds(succ, arcs)
    ensures Holds(SortJumpLists(succ), arcs) && JumpsInOrder(SortJumpLists(succ))
  {
    forall a, id ensures a in Lookup(SortJumpLists(succ), id) <==> a in arcs && a.source == id {
      SortKeepsElements(JumpLeq, Lookup(succ, id));
    }
    forall id | id in succ ensures SortedBy(JumpLeq, Sort(JumpLeq, succ[id])) {
      SortIsSorted(JumpLeq, succ[id]);
    }
  }

  /** Groups arcs by source and sorts every list. */
  method ListArcs(jumps: seq<Jump>) returns (succ: map<Id, seq<Jump>>, ghost arcs: set<Jump>)
    ensures arcs == SetOf(jumps)
    ensures Holds(succ, arcs) && JumpsInOrder(succ) && succ == SortJumpLists(Pushed(jumps))
  {
    succ := AddJumps(jumps);
    arcs := SetOf(jumps);
    SortJumpListsKeeps(succ, arcs);
    succ := SortJumpLists(succ);
  }

  lemma ResolvedHostSet(
        ops: map<Id, Op>, edges: seq<Edge>, includeAsync: bool, hosts: map<Id, Id>, targets: map<Id, seq<Id>>,
        resolved: set<Id>)
    requires HostsScanned(ops, includeAsync, hosts) && TargetsScanned(ops, edges, includeAsync, targets)
    requires resolved == ResolvedHostsOf(hosts, targets)
    ensures forall h: Id :: h in resolved <==> ResolvedHost(ops, edges, includeAsync, h)
  {
    forall h: Id ensures h in resolved <==> ResolvedHost(ops, edges, includeAsync, h) {
      ResolvedHostsMeaning(ops, edges, includeAsync, hosts, targets, h);
    }
  }

  lemma ContinuationMap(
        ops: map<Id, Op>, edges: seq<Edge>, includeAsync: bool, hosts: map<Id, Id>,
        hostContinuations: map<Id, seq<Id>>, raw: seq<(Id, Id)>, targets: map<Id, seq<Id>>,
        continuations: map<Id, seq<Id>>)
    requires HostsScanned(ops, includeAsync, hosts) && Scanned(ops, edges, hostContinuations, raw)
    requires continuations == ContinuationsByCall(hosts, targets, hostContinuations)
    ensures ContinuationsScanned(ops, edges, includeAsync, targets, continuations)
  {
    forall c | c in targets
      ensures forall v: Id :: v in Lookup(continuations, c) <==> RawEdge(ops, edges, Anchor(ops, includeAsync, c), v)
    {
      ContinuationsMeaning(ops, edges, includeAsync, hosts, hostContinuations, raw, c);
    }
  }

  function ResolvedHostsOf(hosts: map<Id, Id>, targets: map<Id, seq<Id>>): set<Id> {
    set c | c in hosts && hosts[c] != NO_ID && c in targets :: hosts[c]
  }

  function ContinuationsByCall(
        hosts: map<Id, Id>, targets: map<Id, seq<Id>>, hostContinuations: map<Id, seq<Id>>): map<Id, seq<Id>> {
    map c | c in targets :: ContinuationsOf(hosts, hostContinuations, c)
  }

  /** The arcs in the order in which _build appends them. */
  function JumpsInPhases(
        operations: seq<Op>, hosts: map<Id, Id>, targets: map<Id, seq<Id>>, entries: map<Id, Id>,
        raw: seq<(Id, Id)>, hostContinuations: map<Id, seq<Id>>): seq<Jump> {
    var ops, calls := OpsById(operations), SortedSet(targets.Keys);
    EntryJumps(SortOps(operations), entries) + ControlJumps(raw, ResolvedHostsOf(hosts, targets)) +
    EmbeddedJumps(ops, hosts) + EnterJumpsFrom(targets, calls) +
    ReturnJumpsFrom(ops, targets, ContinuationsByCall(hosts, targets, hostContinuations), calls)
  }

  /** The successor table of an IR: which arcs, how often and in which order. */
  function SuccessorsOf(ir: SemanticIR, includeAsync: bool): map<Id, seq<Jump>> {
    var ops := OpsById(ir.operations);
    SortJumpLists(Pushed(JumpsInPhases(
      ir.operations, HostsOf(SortOps(ir.operations), includeAsync), TargetsOf(ops, ir.edges, includeAsync),
      FirstEntriesOf(ops, ir.edges), RawOf(ops, ir.edges), HostContinuationsOf(ops, ir.edges))))
  }

  /** _build after the scans: the arcs, phase by phase, then sorted. */
  method CollectArcs(
        operations: seq<Op>, ghost edges: seq<Edge>, includeAsync: bool, hosts: map<Id, Id>,
        targets: map<Id, seq<Id>>, entries: map<Id, Id>, raw: seq<(Id, Id)>, hostContinuations: map<Id, seq<Id>>)
    returns (succ: map<Id, seq<Jump>>, ghost arcs: set<Jump>)
    requires UniqueIds(operations)
    requires HostsScanned(OpsById(operations), includeAsync, hosts)
    requires TargetsScanned(OpsById(operations), edges, includeAsync, targets)
    requires EntriesScanned(OpsById(operations), edges, entries)
    requires Scanned(OpsById(operations), edges, hostContinuations, raw)
    ensures Holds(succ, arcs) && JumpsInOrder(succ)
    ensures succ == SortJumpLists(Pushed(JumpsInPhases(operations, hosts, targets, entries, raw, hostContinuations)))
    ensures forall a :: a in arcs <==> BuiltArc(OpsById(operations), edges, includeAsync, a)
  {
    var ops, calls := OpsById(operations), SortedSet(targets.Keys);
    var enters := EnterJumps(targets, calls);
    var returns_ := ReturnJumps(ops, targets, ContinuationsByCall(hosts, targets, hostContinuations), calls);
    var jumps := EntryJumps(SortOps(operations), entries) + ControlJumps(raw, ResolvedHostsOf(hosts, targets))
      + EmbeddedJumps(ops, hosts) + enters + returns_;
    succ, arcs := ListArcs(jumps);
    forall a ensures a in arcs <==> BuiltArc(ops, edges, includeAsync, a) {
      PhasesBuildArcs(operations, edges, includeAsync, hosts, targets, entries, raw, hostContinuations, a);
    }
  }

  lemma PhasesBuildArcs(
        operations: seq<Op>, edges: seq<Edge>, includeAsync: bool, hosts: map<Id, Id>, targets: map<Id, seq<Id>>,
        entries: map<Id, Id>, raw: seq<(Id, Id)>, hostContinuations: map<Id, seq<Id>>, a: Jump)
    requires UniqueIds(operations)
    requires HostsScanned(OpsById(operations), includeAsync, hosts)
    requires TargetsScanned(OpsById(operations), edges, includeAsync, targets)
    requires EntriesScanned(OpsById(operations), edges, entries)
    requires Scanned(OpsById(operations), edges, hostContinuations, raw)
    ensures a in JumpsInPhases(operations, hosts, targets, entries, raw, hostContinuations)
            <==> BuiltArc(OpsById(operations), edges, includeAsync, a)
  {
    var ops, calls := OpsById(operations), SortedSet(targets.Keys);
    var resolvedHosts := ResolvedHostsOf(hosts, targets);
    ResolvedHostSet(ops, edges, includeAsync, hosts, targets, resolvedHosts);
    EntryJumpsMeaning(operations, edges, entries, a);
    ControlJumpsMeaning(ops, edges, includeAsync, hostContinuations, raw, resolvedHosts, a);
    EmbeddedJumpsMeaning(ops, includeAsync, hosts, a);
    EnterJumpsAre(targets, calls, a);
    BuiltReturnsAre(ops, edges, includeAsync, hosts, targets, raw, hostContinuations, a);
  }

  lemma BuiltReturnsAre(
        ops: map<Id, Op>, edges: seq<Edge>, includeAsync: bool, hosts: map<Id, Id>, targets: map<Id, seq<Id>>,
        raw: seq<(Id, Id)>, hostContinuations: map<Id, seq<Id>>, a: Jump)
    requires HostsScanned(ops, includeAsync, hosts)
    requires TargetsScanned(ops, edges, includeAsync, targets)
    requires Scanned(ops, edges, hostContinuations, raw)
    ensures a in ReturnJumpsFrom(ops, targets, ContinuationsByCall(hosts, targets, hostContinuations),
            SortedSet(targets.Keys))
            <==> a.kind.CallReturn? && BuiltReturn(ops, edges, includeAsync, a)
  {
    var continuations := ContinuationsByCall(hosts, targets, hostContinuations);
    ContinuationMap(ops, edges, includeAsync, hosts, hostContinuations, raw, targets, continuations);
    ReturnJumpsAre(ops, targets, continuations, SortedSet(targets.Keys), a);
    ReturnMeaning(ops, edges, includeAsync, targets, continuations, a);
  }

  lemma ReturnMeaning(
        ops: map<Id, Op>, edges: seq<Edge>, includeAsync: bool, targets: map<Id, seq<Id>>,
        continuations: map<Id, seq<Id>>, a: Jump)
    requires TargetsScanned(ops, edges, includeAsync, targets)
    requires ContinuationsScanned(ops, edges, includeAsync, targets, continuations)
    ensures a.kind.CallReturn? && a.callId in targets && IsReturnOf(ops, targets, a.callId, a.source) &&
            a.target in Lookup(continuations, a.callId)
            <==> a.kind.CallReturn? && BuiltReturn(ops, edges, includeAsync, a)
  {}

  lemma BuiltArcsStayInside(ops: map<Id, Op>, edges: seq<Edge>, includeAsync: bool, a: Jump)
    requires BuiltArc(ops, edges, includeAsync, a)
    ensures a.source in ops && a.target in ops
  {}

  datatype IcfgPath = IcfgPath(operationIds: seq<Id>, arcKinds: seq<ArcKind>, callDepth: nat)

  datatype Query = InvalidArgument | NotFound | Found(path: IcfgPath)

  ghost predicate OutDegreeAtMost(succ: map<Id, seq<Jump>>, d: nat) {
    forall id :: id in succ ==> |succ[id]| <= d
  }

  /** The path is the trace of a real run to the target whose arcs are the least: no run is shorter, and
      where another run of that length first differs, its arc comes later in the order of the arcs. */
  ghost predicate ShortestRun(g: View, depth: nat, source: Id, target: Id, p: IcfgPath) {
    exists cs, arcs :: IsShortestRun(g, depth, source, target, p, cs, arcs)
  }

  ghost predicate IsShortestRun(
        g: View, depth: nat, source: Id, target: Id, p: IcfgPath, cs: seq<Config>, arcs: seq<Jump>) {
    && RunTo(g, depth, source, target, cs, arcs)
    && p.operationIds == OpsOf(cs) && p.arcKinds == KindsOf(arcs)
    && p.callDepth == |cs[|cs| - 1].stack|
    && LeastRun(g, depth, source, target, arcs)
  }

  ghost predicate LeastRun(g: View, depth: nat, source: Id, target: Id, arcs: seq<Jump>) {
    forall ds, others :: RunTo(g, depth, source, target, ds, others) ==> Leq(arcs, others)
  }

  lemma LeastRunIsShortest(g: View, depth: nat, source: Id, target: Id, arcs: seq<Jump>)
    requires LeastRun(g, depth, source, target, arcs)
    ensures NoRunShorterThan(g, depth, source, target, |arcs|)
  {
    forall ds, others | RunTo(g, depth, source, target, ds, others) ensures |others| >= |arcs| {
      assert |Key(arcs)| <= |Key(others)|;
    }
  }

  /** So the answer is determined: only one path can be returned. */
  lemma ShortestRunIsUnique(g: View, depth: nat, source: Id, target: Id, p: IcfgPath, q: IcfgPath)
    requires ShortestRun(g, depth, source, target, p) && ShortestRun(g, depth, source, target, q)
    ensures p == q
  {
    var cs, u :| IsShortestRun(g, depth, source, target, p, cs, u);
    var ds, v :| IsShortestRun(g, depth, source, target, q, ds, v);
    Shortlex.Antisymmetric(Key(u), Key(v));
    KeyDetermines(g, depth, source, cs, u, ds, v);
  }

  lemma NothingFollowed(g: View, succ: map<Id, seq<Jump>>, depth: nat, source: Id)
    ensures AtLeastTransitions(g, succ, depth, source, 0)
  {
    assert AllTransitions(g, succ, depth, source, {});
  }

  lemma TrivialRun(g: View, depth: nat, source: Id)
    ensures ShortestRun(g, depth, source, source, IcfgPath([source], [], 0))
  {
    assert IsShortestRun(g, depth, source, source, IcfgPath([source], [], 0), [Config(source, [])], []);
  }

  lemma MissingTargetHasNoRun(g: View, depth: nat, source: Id, target: Id)
    requires ArcsInside(g) && source in g.ops && target !in g.ops
    ensures NoRun(g, depth, source, target)
  {
    forall cs: seq<Config>, arcs: seq<Jump> | RunFrom(g, depth, source, cs, arcs) ensures cs[|cs| - 1].op in g.ops {
      if arcs != [] {
        var n := |arcs| - 1;
        assert Step(g, depth, cs[n], arcs[n], cs[n + 1]);
      }
    }
  }

  lemma ReturnShortest(g: View, depth: nat, source: Id, target: Id, e: Entry, word: seq<Jump>)
    requires Traces(g, depth, source, e, word) && e.config.op == target && LeastRun(g, depth, source, target, word)
    ensures ShortestRun(g, depth, source, target, IcfgPath(e.operationPath, e.arcPath, |e.config.stack|))
  {
    var cs :| TracedBy(g, depth, source, e, cs, word);
    assert IsShortestRun(g, depth, source, target, IcfgPath(e.operationPath, e.arcPath, |e.config.stack|), cs, word);
  }

  function FillEntries(ops: map<Id, Op>, firsts: map<Id, Id>): map<Id, Id> {
    map f | f in ops && ops[f].kind.Function? :: if f in firsts then firsts[f] else f
  }

  /** What function_entry answers from: exactly the functions, each with its entry. */
  ghost predicate EntriesOf(ops: map<Id, Op>, edges: seq<Edge>, entries: map<Id, Id>) {
    forall f :: (f in entries <==> f in ops && ops[f].kind.Function?) &&
      (f in entries ==> entries[f] == EntryOf(ops, edges, f))
  }

  lemma FillEntriesMeaning(ops: map<Id, Op>, edges: seq<Edge>, firsts: map<Id, Id>)
    requires EntriesScanned(ops, edges, firsts)
    ensures EntriesOf(ops, edges, FillEntries(ops, firsts))
  {
    forall f | f in FillEntries(ops, firsts) ensures FillEntries(ops, firsts)[f] == EntryOf(ops, edges, f) {
      EntryTarget(ops, edges, firsts, f);
    }
  }

  /** The phases of _build: hosts, edges, arcs. */
  method BuildParts(ir: SemanticIR, includeAsync: bool)
    returns (hosts: map<Id, Id>, continuations: map<Id, seq<Id>>, raw: seq<(Id, Id)>, firsts: map<Id, Id>,
             targets: map<Id, seq<Id>>, succ: map<Id, seq<Jump>>, ghost view: View)
    requires UniqueIds(ir.operations)
    ensures view.ops == OpsById(ir.operations) && view.targets == targets
    ensures view.continuations == ContinuationsByCall(hosts, targets, continuations)
    ensures Holds(succ, view.arcs) && ArcsInside(view) && JumpsInOrder(succ)
    ensures EntriesScanned(OpsById(ir.operations), ir.edges, firsts)
    ensures succ == SuccessorsOf(ir, includeAsync) && BuiltFrom(view, ir, includeAsync)
  {
    var ops := OpsById(ir.operations);
    SortedLookup(ir.operations);
    hosts := ScanHosts(ops, SortOps(ir.operations), includeAsync);
    continuations, raw, firsts, targets := ScanEdges(ops, ir.edges, includeAsync);
    ghost var arcs;
    succ, arcs := CollectArcs(ir.operations, ir.edges, includeAsync, hosts, targets, firsts, raw, continuations);
    ghost var conts := ContinuationsByCall(hosts, targets, continuations);
    ContinuationMap(ops, ir.edges, includeAsync, hosts, continuations, raw, targets, conts);
    view := View(ops, arcs, targets, conts);
    PartsBuild(ir, includeAsync, view);
  }

  lemma PartsBuild(ir: SemanticIR, includeAsync: bool, v: View)
    requires v.ops == OpsById(ir.operations)
    requires TargetsScanned(v.ops, ir.edges, includeAsync, v.targets)
    requires ContinuationsScanned(v.ops, ir.edges, includeAsync, v.targets, v.continuations)
    requires forall a :: a in v.arcs <==> BuiltArc(v.ops, ir.edges, includeAsync, a)
    ensures ArcsInside(v) && BuiltFrom(v, ir, includeAsync)
  {
    forall a | a in v.arcs ensures a.source in v.ops && a.target in v.ops {
      BuiltArcsStayInside(v.ops, ir.edges, includeAsync, a);
    }
  }

  /** What an answer within the argument limits means.  steps is the number of transitions the
      search has followed, all of them distinct and from reachable states; a search that gives up
      has either seen everything or followed at least its budget. */
  ghost predicate IsAnswer(
        g: View, succ: map<Id, seq<Jump>>, depth: nat, source: Id, target: Id, maxSteps: nat, r: Query, steps: nat,
        exhausted: bool) {
    && !r.InvalidArgument?
    && (r.Found? ==> ShortestRun(g, depth, source, target, r.path))
    && (r.NotFound? && exhausted ==> source !in g.ops || NoRun(g, depth, source, target))
    && (r.NotFound? ==> exhausted || steps >= maxSteps)
    && AtLeastTransitions(g, succ, depth, source, steps)
  }

  /** With fewer reachable transitions than the budget the search cannot be cut short, so its
      answer is exact. */
  lemma EnoughBudgetDecides(
        g: View, succ: map<Id, seq<Jump>>, depth: nat, source: Id, target: Id, maxSteps: nat, r: Query, steps: nat,
        exhausted: bool, all: set<Transition>)
    requires IsAnswer(g, succ, depth, source, target, maxSteps, r, steps, exhausted) && source in g.ops
    requires CoversTransitions(g, succ, depth, source, all) && |all| < maxSteps
    ensures r.Found? <==> exists cs, arcs :: RunTo(g, depth, source, target, cs, arcs)
  {
    FewTransitions(g, succ, depth, source, steps, all);
    if r.Found? {
      var cs, arcs :| IsShortestRun(g, depth, source, target, r.path, cs, arcs);
      assert RunTo(g, depth, source, target, cs, arcs);
    }
  }

  class InterproceduralControlFlowGraph {
    ghost const view: View
    const operations: map<Id, Op>
    const successors: map<Id, seq<Jump>>
    const entries: map<Id, Id>
    const hostContinuations: map<Id, seq<Id>>
    const callTargets: map<Id, seq<Id>>
    const callHosts: map<Id, Id>
    const rawControlEdges: seq<(Id, Id)>

    ghost predicate Built() {
      && view.ops == operations && view.targets == callTargets
      && Holds(successors, view.arcs) && ArcsInside(view)
      && (forall c :: c in callTargets ==> Lookup(view.continuations, c) == Continuations(c))
      && JumpsInOrder(successors)
    }

    function Continuations(callId: Id): seq<Id> {
      ContinuationsOf(callHosts, hostContinuations, callId)
    }

    constructor (ir: SemanticIR, includeAsync: bool)
      requires UniqueIds(ir.operations)
      ensures Built() && BuiltFrom(view, ir, includeAsync) && JumpsInOrder(successors)
      ensures EntriesOf(OpsById(ir.operations), ir.edges, entries)
      ensures successors == SuccessorsOf(ir, includeAsync)
    {
      var hosts, continuations, raw, firsts, targets, succ;
      ghost var v;
      hosts, continuations, raw, firsts, targets, succ, v := BuildParts(ir, includeAsync);
      operations := OpsById(ir.operations);
      successors := succ;
      entries := FillEntries(OpsById(ir.operations), firsts);
      hostContinuations := continuations;
      callTargets := targets;
      callHosts := hosts;
      rawControlEdges := raw;
      view := v;
      FillEntriesMeaning(OpsById(ir.operations), ir.edges, firsts);
    }

    /** The frame checks of the traversal: the stack after an arc, or None where it is skipped. */
    function NextStack(current: Id, stack: seq<Frame>, arc: Jump, maxCallDepth: nat): (next: Option<seq<Frame>>)
      requires Built() && arc in Lookup(successors, current)
      ensures forall d :: Step(view, maxCallDepth, Config(current, stack), arc, d) <==>
                          next.Some? && d == Config(arc.target, next.value)
    {
      if arc.kind.CallEnter? then
        if |stack| >= maxCallDepth then None
        else if arc.target !in Lookup(callTargets, arc.callId) then None
        else Some(stack + [Frame(arc.callId, arc.target, Continuations(arc.callId))])
      else if arc.kind.CallReturn? then
        if stack == [] || arc.callId != Top(stack).callId || Top(stack).calleeScope != operations[current].scope
           || arc.target !in Top(stack).continuations
        then None
        else Some(stack[..|stack| - 1])
      else Some(stack)
    }

    /** path(): breadth-first search over (operation, stack) states.  steps is the search's own
        counter, and exhausted tells that the queue has run empty. */
    method Path(source: Id, target: Id, maxCallDepth: int, maxSteps: int)
      returns (r: Query, steps: nat, exhausted: bool)
      requires Built()
      ensures r.InvalidArgument? <==> !(0 <= maxCallDepth <= MAX_CALL_DEPTH && 1 <= maxSteps <= MAX_STEPS)
      ensures !r.InvalidArgument? ==>
                0 <= maxCallDepth && 0 <= maxSteps &&
                IsAnswer(view, successors, maxCallDepth, source, target, maxSteps, r, steps, exhausted)
      ensures !r.InvalidArgument? ==> StepsBounded(steps, maxSteps)
    {
      if !(0 <= maxCallDepth <= MAX_CALL_DEPTH) || !(1 <= maxSteps <= MAX_STEPS) {
        return InvalidArgument, 0, true;
      }
      NothingFollowed(view, successors, maxCallDepth, source);
      if source !in operations || target !in operations {
        if source in operations { MissingTargetHasNoRun(view, maxCallDepth, source, target); }
        return NotFound, 0, true;
      }
      if source == target {
        TrivialRun(view, maxCallDepth, source);
        return Found(IcfgPath([source], [], 0)), 0, true;
      }
      r, steps, exhausted := Search(source, target, maxCallDepth, maxSteps);
    }

    /** The while loop of path. */
    method Search(source: Id, target: Id, depth: nat, maxSteps: nat) returns (r: Query, steps: nat, exhausted: bool)
      requires Built() && source != target && maxSteps >= 1
      ensures IsAnswer(view, successors, depth, source, target, maxSteps, r, steps, exhausted)
      ensures StepsBounded(steps, maxSteps)
    {
      var queue := [Entry(Config(source, []), [source], [])];
      var visited: set<Config> := {};
      steps := 0;
      ghost var followed: set<Transition> := {};
      ghost var best: map<Config, seq<Jump>> := map[];
      ghost var words: seq<seq<Jump>> := [[]];
      StartSearch(source, target, depth, maxSteps);
      while queue != [] && steps < maxSteps
        invariant InSearch(source, target, depth, maxSteps, queue, visited, steps, followed, best, words)
        decreases maxSteps - steps, |queue|
      {
        var entry := queue[0];
        ghost var pending := queue;
        queue := queue[1..];
        if entry.config in visited {
          SkipEntry(source, target, depth, maxSteps, pending, visited, steps, followed, best, words);
          words := words[1..];
          continue;
        }
        HeadIsTraced(source, target, depth, maxSteps, pending, visited, steps, followed, best, words);
        var found, more, taken, used, jumps := ExpandEntry(entry, target, depth, source, words[0]);
        if found.Some? {
          r := Found(IcfgPath(found.value.operationPath, found.value.arcPath, |found.value.config.stack|));
          FoundEntry(source, target, depth, maxSteps, pending, visited, steps, followed, best, words,
                     found.value, taken, used, jumps);
          return r, steps + taken, false;
        }
        AddEntries(source, target, depth, maxSteps, pending, visited, steps, followed, best, words,
                   more, taken, used, jumps);
        visited := visited + {entry.config};
        best := best[entry.config := words[0]];
        words := Replaced(words, jumps);
        steps, followed := steps + taken, followed + used;
        queue := queue + more;
      }
      r, exhausted := NotFound, queue == [];
      EndSearch(source, target, depth, maxSteps, queue, visited, steps, followed, best, words);
    }

    /** The invariant of the search: its frontier, the expanded states, and the transitions counted. */
    ghost predicate InSearch(
          source: Id, target: Id, depth: nat, maxSteps: nat, queue: seq<Entry>, visited: set<Config>, steps: nat,
          followed: set<Transition>, best: map<Config, seq<Jump>>, words: seq<seq<Jump>>)
    {
      && Searching(view, depth, source, target, best, queue, words, {})
      && visited == best.Keys && Tallied(source, depth, maxSteps, visited, steps, followed)
    }

    ghost predicate Tallied(
          source: Id, depth: nat, maxSteps: nat, visited: set<Config>, steps: nat, followed: set<Transition>)
    {
      Counted(depth, source, visited, followed, steps) && StepsBounded(steps, maxSteps)
    }

    lemma StartSearch(source: Id, target: Id, depth: nat, maxSteps: nat)
      requires source != target && maxSteps >= 1
      ensures InSearch(source, target, depth, maxSteps, [Entry(Config(source, []), [source], [])], {}, 0, {}, map[],
              [[]])
    {
      InitialFrontier(view, depth, source, target);
    }

    lemma SkipEntry(
          source: Id, target: Id, depth: nat, maxSteps: nat, queue: seq<Entry>, visited: set<Config>, steps: nat,
          followed: set<Transition>, best: map<Config, seq<Jump>>, words: seq<seq<Jump>>)
      requires InSearch(source, target, depth, maxSteps, queue, visited, steps, followed, best, words)
      requires queue != [] && queue[0].config in visited
      ensures InSearch(source, target, depth, maxSteps, queue[1..], visited, steps, followed, best, words[1..])
    {
      PopSearching(view, depth, source, target, best, queue, words);
    }

    lemma HeadIsTraced(
          source: Id, target: Id, depth: nat, maxSteps: nat, queue: seq<Entry>, visited: set<Config>, steps: nat,
          followed: set<Transition>, best: map<Config, seq<Jump>>, words: seq<seq<Jump>>)
      requires InSearch(source, target, depth, maxSteps, queue, visited, steps, followed, best, words) && queue != []
      ensures words != [] && Traces(view, depth, source, queue[0], words[0])
    {}

    lemma FoundEntry(
          source: Id, target: Id, depth: nat, maxSteps: nat, queue: seq<Entry>, visited: set<Config>, steps: nat,
          followed: set<Transition>, best: map<Config, seq<Jump>>, words: seq<seq<Jump>>, e: Entry, taken: nat,
          used: set<Transition>, jumps: seq<Jump>)
      requires InSearch(source, target, depth, maxSteps, queue, visited, steps, followed, best, words)
      requires steps < maxSteps && queue != [] && words != [] && queue[0].config !in visited
      requires Follows(depth, source, queue[0].config, taken, used)
      requires FirstToTarget(queue[0].config, target, depth, source, words[0], e, jumps)
      ensures IsAnswer(view, successors, depth, source, target, maxSteps,
                       Found(IcfgPath(e.operationPath, e.arcPath, |e.config.stack|)), steps + taken, false)
      ensures StepsBounded(steps + taken, maxSteps)
    {
      var a := jumps[|jumps| - 1];
      forall ds, others | RunTo(view, depth, source, target, ds, others) ensures Leq(words[0] + [a], others) {
        HeadCompletesLeastRun(view, depth, source, target, best, queue, words, a, ds, others);
      }
      ReturnShortest(view, depth, source, target, e, words[0] + [a]);
      CountMore(depth, source, visited, followed, steps, queue[0].config, used);
      MoreSteps(steps, maxSteps, taken, queue[0].config.op);
    }

    lemma AddEntries(
          source: Id, target: Id, depth: nat, maxSteps: nat, queue: seq<Entry>, visited: set<Config>, steps: nat,
          followed: set<Transition>, best: map<Config, seq<Jump>>, words: seq<seq<Jump>>, more: seq<Entry>, taken: nat,
          used: set<Transition>, jumps: seq<Jump>)
      requires InSearch(source, target, depth, maxSteps, queue, visited, steps, followed, best, words)
      requires steps < maxSteps && queue != [] && words != [] && queue[0].config !in visited
      requires Follows(depth, source, queue[0].config, taken, used)
      requires Discovered(view, depth, source, target, words[0], more, jumps)
      requires AllListed(view, depth, target, queue[0].config, more, jumps)
      ensures InSearch(source, target, depth, maxSteps, queue[1..] + more, visited + {queue[0].config}, steps + taken,
                       followed + used, best[queue[0].config := words[0]], Replaced(words, jumps))
    {
      PushSearching(view, depth, source, target, best, queue, words, more, jumps);
      AddCounts(source, depth, maxSteps, visited, steps, followed, queue[0].config, taken, used);
    }

    lemma AddCounts(
          source: Id, depth: nat, maxSteps: nat, visited: set<Config>, steps: nat, followed: set<Transition>, c: Config,
          taken: nat, used: set<Transition>)
      requires Tallied(source, depth, maxSteps, visited, steps, followed) && steps < maxSteps && c !in visited
      requires Follows(depth, source, c, taken, used)
      ensures Tallied(source, depth, maxSteps, visited + {c}, steps + taken, followed + used)
    {
      CountMore(depth, source, visited, followed, steps, c, used);
      MoreSteps(steps, maxSteps, taken, c.op);
    }

    lemma EndSearch(
          source: Id, target: Id, depth: nat, maxSteps: nat, queue: seq<Entry>, visited: set<Config>, steps: nat,
          followed: set<Transition>, best: map<Config, seq<Jump>>, words: seq<seq<Jump>>)
      requires InSearch(source, target, depth, maxSteps, queue, visited, steps, followed, best, words)
      requires queue == [] || steps >= maxSteps
      ensures IsAnswer(view, successors, depth, source, target, maxSteps, NotFound, steps, queue == [])
    {
      if queue == [] {
        NothingWaits(view, depth, source, target, best, words);
      }
    }

    /** The budget is overrun by one state's arcs at most. */
    ghost predicate StepsBounded(steps: int, maxSteps: int) {
      forall d: nat :: OutDegreeAtMost(successors, d) ==> steps <= maxSteps - 1 + d
    }

    lemma MoreSteps(steps: nat, maxSteps: nat, taken: nat, op: Id)
      requires steps < maxSteps && taken <= |Lookup(successors, op)|
      ensures StepsBounded(steps + taken, maxSteps)
    {}

    /** The steps counted so far: one for each transition followed, from expanded states only. */
    ghost predicate Counted(depth: nat, source: Id, visited: set<Config>, followed: set<Transition>, steps: nat) {
      && |followed| == steps && AllTransitions(view, successors, depth, source, followed)
      && forall t :: t in followed ==> t.0 in visited
    }

    lemma CountMore(
          depth: nat, source: Id, visited: set<Config>, followed: set<Transition>, steps: nat, c: Config,
          used: set<Transition>)
      requires Counted(depth, source, visited, followed, steps) && c !in visited
      requires AllTransitions(view, successors, depth, source, used) && forall t :: t in used ==> t.0 == c
      ensures Counted(depth, source, visited + {c}, followed + used, steps + |used|)
    {
      assert followed * used == {};
    }

    /** The transitions counted for one state: distinct ones, each from that state. */
    ghost predicate Follows(depth: nat, source: Id, c: Config, taken: nat, used: set<Transition>) {
      && taken == |used| <= |Lookup(successors, c.op)|
      && AllTransitions(view, successors, depth, source, used) && forall t :: t in used ==> t.0 == c
    }

    /** The entry takes the last of the arcs to the target; no arc to the target comes before it. */
    ghost predicate FirstToTarget(
          c: Config, target: Id, depth: nat, source: Id, word: seq<Jump>, e: Entry, jumps: seq<Jump>)
    {
      && jumps != [] && e.config.op == target && Traces(view, depth, source, e, word + [jumps[|jumps| - 1]])
      && forall b, d :: Step(view, depth, c, b, d) && d.op == target ==> JumpLeq(jumps[|jumps| - 1], b)
    }

    ghost predicate ArcsListed(c: Config, target: Id, depth: nat, i: nat, more: seq<Entry>, jumps: seq<Jump>)
      requires i <= |Lookup(successors, c.op)|
    {
      forall j, d :: 0 <= j < i && Step(view, depth, c, Lookup(successors, c.op)[j], d) ==>
        d.op != target && Listed(more, jumps, d, Lookup(successors, c.op)[j])
    }

    lemma ListArc(c: Config, target: Id, depth: nat, i: nat, more: seq<Entry>, jumps: seq<Jump>, e: Entry)
      requires i < |Lookup(successors, c.op)| && |more| == |jumps| && ArcsListed(c, target, depth, i, more, jumps)
      requires forall d :: Step(view, depth, c, Lookup(successors, c.op)[i], d) ==> d == e.config
      requires e.config.op != target
      ensures ArcsListed(c, target, depth, i + 1, more + [e], jumps + [Lookup(successors, c.op)[i]])
    {
      ListedOneMore(more, jumps, e, Lookup(successors, c.op)[i]);
    }

    /** The arcs followed are some of the first i of the list, in order. */
    ghost predicate Chosen(op: Id, i: nat, jumps: seq<Jump>)
      requires i <= |Lookup(successors, op)|
    {
      forall a, j :: a in jumps && i <= j < |Lookup(successors, op)| ==> JumpLeq(a, Lookup(successors, op)[j])
    }

    lemma ChooseOne(op: Id, i: nat, jumps: seq<Jump>)
      requires Built() && i < |Lookup(successors, op)| && Chosen(op, i, jumps)
      ensures Chosen(op, i + 1, jumps + [Lookup(successors, op)[i]])
    {
      assert op in successors && SortedBy(JumpLeq, successors[op]);
    }

    /** The entries for the first i arcs of an entry's operation, and the transitions followed for them. */
    ghost predicate ListedUpTo(
          entry: Entry, target: Id, depth: nat, source: Id, word: seq<Jump>, i: nat, more: seq<Entry>,
          jumps: seq<Jump>, used: set<Transition>)
      requires i <= |Lookup(successors, entry.config.op)|
    {
      && Discovered(view, depth, source, target, word, more, jumps)
      && ArcsListed(entry.config, target, depth, i, more, jumps) && Chosen(entry.config.op, i, jumps)
      && |more| == |used| <= i && UsedBelow(depth, source, entry.config, used, i)
    }

    lemma ListOne(
          entry: Entry, target: Id, depth: nat, source: Id, word: seq<Jump>, i: nat, more: seq<Entry>,
          jumps: seq<Jump>, used: set<Transition>, stack: seq<Frame>)
      requires Built() && Traces(view, depth, source, entry, word) && i < |Lookup(successors, entry.config.op)|
      requires ListedUpTo(entry, target, depth, source, word, i, more, jumps, used)
      requires NextStack(entry.config.op, entry.config.stack, Lookup(successors, entry.config.op)[i], depth) ==
               Some(stack)
      requires Lookup(successors, entry.config.op)[i].target != target
      ensures ListedUpTo(entry, target, depth, source, word, i + 1,
                         more + [Extend(entry, Lookup(successors, entry.config.op)[i], stack)],
                         jumps + [Lookup(successors, entry.config.op)[i]], used + {(entry.config, i)})
    {
      var arc := Lookup(successors, entry.config.op)[i];
      assert entry.config == Config(entry.config.op, entry.config.stack);
      ExtendTraces(view, depth, source, entry, word, arc, stack);
      DiscoverOne(view, depth, source, target, word, more, jumps, Extend(entry, arc, stack), arc);
      ListArc(entry.config, target, depth, i, more, jumps, Extend(entry, arc, stack));
      ChooseOne(entry.config.op, i, jumps);
      TracedIsReached(view, depth, source, entry, word);
      UseOne(depth, source, entry.config, used, i, Config(arc.target, stack));
    }

    lemma ListNone(
          entry: Entry, target: Id, depth: nat, source: Id, word: seq<Jump>, i: nat, more: seq<Entry>,
          jumps: seq<Jump>, used: set<Transition>)
      requires Built() && i < |Lookup(successors, entry.config.op)|
      requires ListedUpTo(entry, target, depth, source, word, i, more, jumps, used)
      requires NextStack(entry.config.op, entry.config.stack, Lookup(successors, entry.config.op)[i], depth).None?
      ensures ListedUpTo(entry, target, depth, source, word, i + 1, more, jumps, used)
    {
      assert entry.config == Config(entry.config.op, entry.config.stack);
    }

    lemma ListTarget(
          entry: Entry, target: Id, depth: nat, source: Id, word: seq<Jump>, i: nat, more: seq<Entry>,
          jumps: seq<Jump>, used: set<Transition>, stack: seq<Frame>)
      requires Built() && Traces(view, depth, source, entry, word) && i < |Lookup(successors, entry.config.op)|
      requires ListedUpTo(entry, target, depth, source, word, i, more, jumps, used)
      requires NextStack(entry.config.op, entry.config.stack, Lookup(successors, entry.config.op)[i], depth) ==
               Some(stack)
      requires Lookup(successors, entry.config.op)[i].target == target
      ensures Follows(depth, source, entry.config, |more| + 1, used + {(entry.config, i)})
      ensures FirstToTarget(entry.config, target, depth, source, word,
              Extend(entry, Lookup(successors, entry.config.op)[i], stack),
                            jumps + [Lookup(successors, entry.config.op)[i]])
    {
      var arc := Lookup(successors, entry.config.op)[i];
      assert entry.config == Config(entry.config.op, entry.config.stack);
      ExtendTraces(view, depth, source, entry, word, arc, stack);
      FirstArcIsLeast(entry.config, target, depth, i, more, jumps);
      TracedIsReached(view, depth, source, entry, word);
      UseOne(depth, source, entry.config, used, i, Config(arc.target, stack));
    }

    lemma FirstArcIsLeast(c: Config, target: Id, depth: nat, i: nat, more: seq<Entry>, jumps: seq<Jump>)
      requires Built() && i < |Lookup(successors, c.op)| && ArcsListed(c, target, depth, i, more, jumps)
      ensures forall b, d :: Step(view, depth, c, b, d) && d.op == target ==> JumpLeq(Lookup(successors, c.op)[i], b)
    {
      var arcs := Lookup(successors, c.op);
      assert c.op in successors && SortedBy(JumpLeq, successors[c.op]);
      forall b, d | Step(view, depth, c, b, d) && d.op == target ensures JumpLeq(arcs[i], b) {
        assert b in arcs;
        var j :| 0 <= j < |arcs| && arcs[j] == b;
        assert j >= i;
      }
    }

    lemma ListedAll(
          entry: Entry, target: Id, depth: nat, source: Id, word: seq<Jump>, more: seq<Entry>, jumps: seq<Jump>,
          used: set<Transition>)
      requires Built()
      requires ListedUpTo(entry, target, depth, source, word, |Lookup(successors, entry.config.op)|, more, jumps, used)
      ensures AllListed(view, depth, target, entry.config, more, jumps)
      ensures Follows(depth, source, entry.config, |more|, used)
      ensures Discovered(view, depth, source, target, word, more, jumps)
    {
      forall a, d | Step(view, depth, entry.config, a, d) ensures d.op != target && Listed(more, jumps, d, a) {
        assert a in Lookup(successors, entry.config.op);
      }
    }

    /** The inner loop of path: the entries reached by one arc, in the order of the arcs, stopping at the
        target. */
    method ExpandEntry(entry: Entry, target: Id, maxCallDepth: nat, ghost source: Id, ghost word: seq<Jump>)
      returns (found: Option<Entry>, more: seq<Entry>, taken: nat, ghost used: set<Transition>, ghost jumps: seq<Jump>)
      requires Built() && Traces(view, maxCallDepth, source, entry, word)
      ensures found.Some? ==> FirstToTarget(entry.config, target, maxCallDepth, source, word, found.value, jumps)
      ensures found.None? ==> Discovered(view, maxCallDepth, source, target, word, more, jumps)
      ensures found.None? ==> AllListed(view, maxCallDepth, target, entry.config, more, jumps)
      ensures taken == |more| + (if found.Some? then 1 else 0)
      ensures Follows(maxCallDepth, source, entry.config, taken, used)
    {
      found, more, used, jumps := None, [], {}, [];
      var current, stack := entry.config.op, entry.config.stack;
      var arcs := Lookup(successors, current);
      for i := 0 to |arcs|
        invariant ListedUpTo(entry, target, maxCallDepth, source, word, i, more, jumps, used)
      {
        assert arcs[i] in arcs;
        var next := NextStack(current, stack, arcs[i], maxCallDepth);
        if next.None? {
          ListNone(entry, target, maxCallDepth, source, word, i, more, jumps, used);
          continue;
        }
        var reached := Extend(entry, arcs[i], next.value);
        if arcs[i].target == target {
          ListTarget(entry, target, maxCallDepth, source, word, i, more, jumps, used, next.value);
          return Some(reached), more, |more| + 1, used + {(entry.config, i)}, jumps + [arcs[i]];
        }
        ListOne(entry, target, maxCallDepth, source, word, i, more, jumps, used, next.value);
        more, used, jumps := more + [reached], used + {(entry.config, i)}, jumps + [arcs[i]];
      }
      ListedAll(entry, target, maxCallDepth, source, word, more, jumps, used);
      taken := |more|;
    }

    /** Transitions from one state at the first i places of its list. */
    ghost predicate UsedBelow(depth: nat, source: Id, c: Config, used: set<Transition>, i: nat) {
      AllTransitions(view, successors, depth, source, used) && forall t :: t in used ==> t.0 == c && t.1 < i
    }

    lemma UseOne(depth: nat, source: Id, c: Config, used: set<Transition>, i: nat, d: Config)
      requires UsedBelow(depth, source, c, used, i) && ReachedState(view, depth, source, c)
      requires i < |Lookup(successors, c.op)| && Step(view, depth, c, Lookup(successors, c.op)[i], d)
      ensures UsedBelow(depth, source, c, used + {(c, i)}, i + 1) && |used + {(c, i)}| == |used| + 1
    {
      assert (c, i) !in used && IsTransition(view, successors, depth, source, (c, i));
    }
  }

  /** One more entry, by an arc that comes after those before. */
  lemma DiscoverOne(
        g: View, depth: nat, source: Id, target: Id, word: seq<Jump>, more: seq<Entry>, jumps: seq<Jump>, e: Entry,
        a: Jump)
    requires Discovered(g, depth, source, target, word, more, jumps) && forall b :: b in jumps ==> JumpLeq(b, a)
    requires e.config.op != target && Traces(g, depth, source, e, word + [a])
    ensures Discovered(g, depth, source, target, word, more + [e], jumps + [a])
  {}

  /** With an empty queue every state a run can reach has been expanded. */
  lemma NothingWaits(
        g: View, depth: nat, source: Id, target: Id, best: map<Config, seq<Jump>>, words: seq<seq<Jump>>)
    requires Searching(g, depth, source, target, best, [], words, {})
    ensures NoRun(g, depth, source, target)
  {
    if cs, arcs :| RunTo(g, depth, source, target, cs, arcs) {
      var i, j := FrontierBoundsRuns(g, depth, source, target, best, [], words, cs, arcs);
    }
  }

  lemma TracedIsReached(g: View, depth: nat, source: Id, e: Entry, word: seq<Jump>)
    requires Traces(g, depth, source, e, word)
    ensures ReachedState(g, depth, source, e.config)
  {
    var cs :| TracedBy(g, depth, source, e, cs, word);
  }
}
