/** When an embedded call owns its host's continuation (smartbench/analysis/icfg.py). */
module IcfgHosts {
  import opened Sequences
  import opened Ir
  import opened ControlFlow
  import opened IcfgRuns
  import opened IcfgSearch
  import opened Icfg
  import opened IcfgTheorems
  import opened Programs

  /** The run enters a target of the call from this stack. */
  ghost predicate EntersAt(cs: seq<Config>, arcs: seq<Jump>, k: nat, c: Id, stack: seq<Frame>) {
    k < |cs| && k < |arcs| && cs[k] == Config(c, stack) && arcs[k].kind.CallEnter?
  }

  ghost predicate EnteredBetween(cs: seq<Config>, arcs: seq<Jump>, i: nat, j: nat, c: Id, stack: seq<Frame>) {
    exists k :: i <= k < j && EntersAt(cs, arcs, k, c, stack)
  }

  /** Still at the host or at its call, in the frame of the host. */
  predicate AtSite(d: Config, h: Id, c: Id, stack: seq<Frame>) {
    d == Config(h, stack) || d == Config(c, stack)
  }

  /** Neither the host nor the call leads elsewhere except through the call's targets: the host is
      not a function with another entry nor a resolved call itself, embeds no other call, and the
      call embeds none and flows to the host at most. */
  ghost predicate OnlyWayOn(ir: SemanticIR, includeAsync: bool, depth: nat, h: Id, c: Id) {
    var ops := OpsById(ir.operations);
    && (h in ops && ops[h].kind.Function? ==> EntryOf(ops, ir.edges, h) == h || EntryOf(ops, ir.edges, h) == c)
    && (depth > 0 && c != h ==> forall f :: !CallTarget(ops, ir.edges, includeAsync, h, f))
    && (forall x: Id ::
          EmbeddedIn(ops, includeAsync, x, h) || EmbeddedIn(ops, includeAsync, x, c) ==> x == h || x == c)
    && (!ResolvedHost(ops, ir.edges, includeAsync, c) ==> forall v: Id :: RawEdge(ops, ir.edges, c, v) ==>
       v == h || v == c)
  }

  predicate EmbeddedIn(ops: map<Id, Op>, includeAsync: bool, x: Id, host: Id) {
    host != NO_ID && HostOf(ops, includeAsync, x) == host
  }

  /** Some call site can continue from the host, a RETURN of its scope. */
  ghost predicate Continues(ir: SemanticIR, includeAsync: bool, h: Id) {
    var ops := OpsById(ir.operations);
    h in ops && ops[h].kind.Return? && exists c, k :: CallTarget(ops, ir.edges, includeAsync, c, ops[h].scope) &&
                                                      RawEdge(ops, ir.edges, Anchor(ops, includeAsync, c), k)
  }

  ghost predicate Embeds(g: View, ir: SemanticIR, includeAsync: bool, h: Id, c: Id) {
    && BuiltFrom(g, ir, includeAsync) && h in g.ops && c in g.ops
    && ResolvedHost(g.ops, ir.edges, includeAsync, h) && EmbeddedIn(g.ops, includeAsync, c, h)
  }

  /** Where the arcs out of the site lead. */
  lemma SiteArc(g: View, ir: SemanticIR, includeAsync: bool, depth: nat, h: Id, c: Id, a: Jump)
    requires Embeds(g, ir, includeAsync, h, c) && OnlyWayOn(ir, includeAsync, depth, h, c)
    requires BuiltArc(g.ops, ir.edges, includeAsync, a) && (a.source == h || a.source == c)
    ensures match a.kind
            case CallEnter => depth == 0 || a.source == c
            case CallReturn => Continues(ir, includeAsync, h)
            case _ => a.target == h || a.target == c
  {
    var ops := g.ops;
    match a.kind
    case CallEnter =>
      assert CallTarget(ops, ir.edges, includeAsync, a.source, a.target);
    case CallReturn =>
      assert a.source == h;
      assert CallTarget(ops, ir.edges, includeAsync, a.callId, ops[h].scope) &&
             RawEdge(ops, ir.edges, Anchor(ops, includeAsync, a.callId), a.target);
    case EmbeddedCall =>
      assert EmbeddedIn(ops, includeAsync, a.target, a.source);
    case _ =>
  }

  /** One step from the site: to the site, or into the call. */
  lemma SiteStep(
        g: View, ir: SemanticIR, includeAsync: bool, depth: nat, h: Id, c: Id, stack: seq<Frame>, u: Config, a: Jump,
        v: Config)
    requires Embeds(g, ir, includeAsync, h, c) && OnlyWayOn(ir, includeAsync, depth, h, c)
    requires stack == [] || !Continues(ir, includeAsync, h)
    requires AtSite(u, h, c, stack) && Step(g, depth, u, a, v)
    ensures AtSite(v, h, c, stack) || (u == Config(c, stack) && a.kind.CallEnter?)
  {
    SiteArc(g, ir, includeAsync, depth, h, c, a);
  }

  /** From a visit of the host, the run stays at the site until it has entered the call. */
  lemma {:induction false} StaysUntilEntered(
        g: View, ir: SemanticIR, includeAsync: bool, depth: nat, h: Id, c: Id, cs: seq<Config>, arcs: seq<Jump>,
        i: nat, j: nat)
    requires Embeds(g, ir, includeAsync, h, c) && OnlyWayOn(ir, includeAsync, depth, h, c)
    requires IsRun(g, depth, cs, arcs) && i <= j < |cs| && cs[i].op == h
    requires cs[i].stack == [] || !Continues(ir, includeAsync, h)
    ensures AtSite(cs[j], h, c, cs[i].stack) || EnteredBetween(cs, arcs, i, j, c, cs[i].stack)
    decreases j
  {
    if i < j {
      StaysUntilEntered(g, ir, includeAsync, depth, h, c, cs, arcs, i, j - 1);
      if AtSite(cs[j - 1], h, c, cs[i].stack) {
        assert Step(g, depth, cs[j - 1], arcs[j - 1], cs[j]);
        SiteStep(g, ir, includeAsync, depth, h, c, cs[i].stack, cs[j - 1], arcs[j - 1], cs[j]);
        if !AtSite(cs[j], h, c, cs[i].stack) { assert EntersAt(cs, arcs, j - 1, c, cs[i].stack); }
      }
    }
  }

  /** A call entered and left again was left by a return that matches it. */
  lemma EnteredCallReturns(
        g: View, ir: SemanticIR, includeAsync: bool, depth: nat, cs: seq<Config>, arcs: seq<Jump>, k: nat, j: nat,
        c: Id, stack: seq<Frame>)
    returns (m: nat)
    requires BuiltFrom(g, ir, includeAsync) && IsRun(g, depth, cs, arcs)
    requires EntersAt(cs, arcs, k, c, stack) && k < j < |cs| && cs[j].stack == stack
    ensures k < m < j && arcs[m].kind.CallReturn? && arcs[m].callId == c && cs[m + 1].stack == stack
    ensures cs[m].op in g.ops && g.ops[cs[m].op].kind.Return?
    ensures g.ops[cs[m].op].scope == arcs[k].target && CallTarget(g.ops, ir.edges, includeAsync, c, arcs[k].target)
    ensures RawEdge(g.ops, ir.edges, Anchor(g.ops, includeAsync, c), cs[m + 1].op)
  {
    assert Step(g, depth, cs[k], arcs[k], cs[k + 1]);
    assert BuiltArc(g.ops, ir.edges, includeAsync, arcs[k]);
    var pushed := cs[k + 1].stack;
    m := k + 1;
    while m + 1 < j && |cs[m + 1].stack| > |stack|
      invariant k < m < j && IsPrefix(pushed, cs[m].stack)
    {
      assert Step(g, depth, cs[m], arcs[m], cs[m + 1]);
      m := m + 1;
    }
    assert Step(g, depth, cs[m], arcs[m], cs[m + 1]);
    assert cs[m].stack == pushed;
    assert BuiltArc(g.ops, ir.edges, includeAsync, arcs[m]);
  }

  /** In any run, once the host of a single embedded call is visited, the run is in that frame
      elsewhere only after it has entered the call and returned from it: the callee is not
      bypassed, and control comes back on a successor of the host. */
  lemma SingleCallIsNotBypassed(
        g: View, ir: SemanticIR, includeAsync: bool, depth: nat, h: Id, c: Id, cs: seq<Config>, arcs: seq<Jump>,
        i: nat, j: nat)
    returns (k: nat, m: nat)
    requires Embeds(g, ir, includeAsync, h, c) && OnlyWayOn(ir, includeAsync, depth, h, c)
    requires IsRun(g, depth, cs, arcs) && i <= j < |cs| && cs[i].op == h
    requires cs[i].stack == [] || !Continues(ir, includeAsync, h)
    requires cs[j].stack == cs[i].stack && cs[j].op != h && cs[j].op != c
    ensures i <= k < m < j && EntersAt(cs, arcs, k, c, cs[i].stack)
    ensures arcs[m].kind.CallReturn? && arcs[m].callId == c && cs[m + 1].stack == cs[i].stack
    ensures cs[m].op in g.ops && g.ops[cs[m].op].kind.Return? && g.ops[cs[m].op].scope == arcs[k].target
    ensures CallTarget(g.ops, ir.edges, includeAsync, c, arcs[k].target) && RawEdge(g.ops, ir.edges, h, cs[m + 1].op)
  {
    StaysUntilEntered(g, ir, includeAsync, depth, h, c, cs, arcs, i, j);
    k :| i <= k < j && EntersAt(cs, arcs, k, c, cs[i].stack);
    m := EnteredCallReturns(g, ir, includeAsync, depth, cs, arcs, k, j, c, cs[i].stack);
  }

  /** Every run from the host is at the site, or has entered the call. */
  ghost predicate MustEnter(g: View, depth: nat, h: Id, c: Id) {
    forall cs, arcs :: RunFrom(g, depth, h, cs, arcs) ==>
      AtSite(cs[|cs| - 1], h, c, []) || EnteredBetween(cs, arcs, 0, |arcs|, c, [])
  }

  /** The exact condition on a resolved host and one of its calls. */
  lemma MustEnterIff(g: View, ir: SemanticIR, includeAsync: bool, depth: nat, h: Id, c: Id)
    requires Embeds(g, ir, includeAsync, h, c)
    ensures MustEnter(g, depth, h, c) <==> OnlyWayOn(ir, includeAsync, depth, h, c)
  {
    if OnlyWayOn(ir, includeAsync, depth, h, c) {
      forall cs, arcs | RunFrom(g, depth, h, cs, arcs)
        ensures AtSite(cs[|cs| - 1], h, c, []) || EnteredBetween(cs, arcs, 0, |arcs|, c, [])
      {
        StaysUntilEntered(g, ir, includeAsync, depth, h, c, cs, arcs, 0, |arcs|);
      }
    } else {
      var cs, arcs := Bypass(g, ir, includeAsync, depth, h, c);
    }
  }

  /** Another way on yields a run past the call. */
  lemma Bypass(g: View, ir: SemanticIR, includeAsync: bool, depth: nat, h: Id, c: Id)
    returns (cs: seq<Config>, arcs: seq<Jump>)
    requires Embeds(g, ir, includeAsync, h, c) && !OnlyWayOn(ir, includeAsync, depth, h, c)
    ensures RunFrom(g, depth, h, cs, arcs) && !AtSite(cs[|cs| - 1], h, c, [])
    ensures !EnteredBetween(cs, arcs, 0, |arcs|, c, [])
  {
    var a, d := WayOut(g, ir, includeAsync, depth, h, c);
    if a.source == h {
      cs, arcs := [Config(h, []), d], [a];
    } else {
      var in_ := Jump(h, c, EmbeddedCall, c);
      assert BuiltArc(g.ops, ir.edges, includeAsync, in_);
      cs, arcs := [Config(h, []), Config(c, []), d], [in_, a];
    }
  }

  lemma WayOut(g: View, ir: SemanticIR, includeAsync: bool, depth: nat, h: Id, c: Id) returns (a: Jump, d: Config)
    requires Embeds(g, ir, includeAsync, h, c) && !OnlyWayOn(ir, includeAsync, depth, h, c)
    ensures a.source == h || a.source == c
    ensures Step(g, depth, Config(a.source, []), a, d) && !AtSite(d, h, c, [])
    ensures a.kind.CallEnter? ==> a.source == h != c
  {
    var ops := g.ops;
    if ops[h].kind.Function? && EntryOf(ops, ir.edges, h) != h && EntryOf(ops, ir.edges, h) != c {
      a := Jump(h, EntryOf(ops, ir.edges, h), FunctionEntry, NO_ID);
      d := PlainStep(g, ir, includeAsync, depth, a, []);
    } else if depth > 0 && c != h && exists f :: CallTarget(ops, ir.edges, includeAsync, h, f) {
      var f :| CallTarget(ops, ir.edges, includeAsync, h, f);
      a, d := EnterStep(g, ir, includeAsync, depth, h, f, []);
    } else if x: Id :|
      (EmbeddedIn(ops, includeAsync, x, h) || EmbeddedIn(ops, includeAsync, x, c)) && x != h && x != c {
      a := Jump(HostOf(ops, includeAsync, x), x, EmbeddedCall, x);
      d := PlainStep(g, ir, includeAsync, depth, a, []);
    } else {
      var v: Id :| RawEdge(ops, ir.edges, c, v) && v != h && v != c;
      a := Jump(c, v, CtrlFlow, NO_ID);
      d := PlainStep(g, ir, includeAsync, depth, a, []);
    }
  }

  /** An arc that neither calls nor returns can be followed from any stack. */
  lemma PlainStep(g: View, ir: SemanticIR, includeAsync: bool, depth: nat, a: Jump, stack: seq<Frame>)
    returns (d: Config)
    requires BuiltFrom(g, ir, includeAsync) && a.source in g.ops && !a.kind.CallEnter? && !a.kind.CallReturn?
    requires BuiltArc(g.ops, ir.edges, includeAsync, a)
    ensures Step(g, depth, Config(a.source, stack), a, d) && d == Config(a.target, stack)
  {
    d := Config(a.target, stack);
  }

  lemma EnterStep(g: View, ir: SemanticIR, includeAsync: bool, depth: nat, c: Id, f: Id, stack: seq<Frame>)
    returns (a: Jump, d: Config)
    requires BuiltFrom(g, ir, includeAsync) && |stack| < depth && c in g.ops
    requires CallTarget(g.ops, ir.edges, includeAsync, c, f)
    ensures a == Jump(c, f, CallEnter, c) && Step(g, depth, Config(c, stack), a, d)
    ensures d == Config(f, stack + [Frame(c, f, Lookup(g.continuations, c))])
  {
    a := Jump(c, f, CallEnter, c);
    assert BuiltArc(g.ops, ir.edges, includeAsync, a);
    d := Config(f, stack + [Frame(c, f, Lookup(g.continuations, c))]);
  }

  // ---------- x = f(g()) ----------

  function NestedOp(id: Id, kind: OpKind, scope: Id, host: Id): Op {
    Op(id, kind, "go", scope, id, id, "", "", host, [], [])
  }

  /** Functions f (1) and g (2), the assignment x = f(g()) (3) with its calls of f (4) and of g (5),
      the returns of f (6) and g (7), and the operation after the assignment (8). */
  predicate IsNested(ir: SemanticIR) {
    && ir.operations == [
         NestedOp(1, OpKind.Function, 1, NO_ID), NestedOp(2, OpKind.Function, 2, NO_ID),
         NestedOp(3, OpKind.Assign, 9, NO_ID), NestedOp(4, OpKind.Call, 9, 3), NestedOp(5, OpKind.Call, 9, 3),
         NestedOp(6, OpKind.Return, 1, NO_ID), NestedOp(7, OpKind.Return, 2, NO_ID),
         NestedOp(8, OpKind.Update, 9, NO_ID)]
    && ir.edges == [
         Edge(1, 6, EdgeKind.Contains, ""), Edge(2, 7, EdgeKind.Contains, ""), Edge(3, 8, EdgeKind.Next, ""),
         Edge(4, 3, EdgeKind.Next, ""), Edge(5, 3, EdgeKind.Next, ""), Edge(4, 1, EdgeKind.Calls, ""),
         Edge(5, 2, EdgeKind.Calls, "")]
  }

  lemma NestedOps(ir: SemanticIR)
    requires IsNested(ir)
    ensures UniqueIds(ir.operations) && LooksUp(OpsById(ir.operations), ir.operations)
  {
    NumberedOps(ir.operations);
  }

  lemma NestedFacts(ir: SemanticIR, ops: map<Id, Op>)
    requires IsNested(ir) && LooksUp(ops, ir.operations)
    ensures RawEdge(ops, ir.edges, 3, 8) && CallTarget(ops, ir.edges, false, 4, 1) &&
            CallTarget(ops, ir.edges, false, 5, 2)
    ensures HostOf(ops, false, 4) == 3 && HostOf(ops, false, 5) == 3
    ensures 1 in ops && ops[1].kind.Function? && 6 in ops && ops[6].kind.Return? && ops[6].scope == 1
    ensures 3 in ops && 4 in ops && 5 in ops
  {
    var edges := ir.edges;
    assert edges[2] in edges && edges[5] in edges && edges[6] in edges;
    assert Admitted(ops, edges[2]) && IsCallsEdge(ops, false, edges[5]) && IsCallsEdge(ops, false, edges[6]);
  }

  lemma NestedEntry(ir: SemanticIR, ops: map<Id, Op>)
    requires IsNested(ir) && LooksUp(ops, ir.operations)
    ensures EntryOf(ops, ir.edges, 1) == 6
  {
    assert IsEntryEdge(ops, ir.edges[0]) && ir.edges[0].source == 1;
  }

  /** A run from a host through one embedded call, whose callee returns at once. */
  lemma ThroughCall(g: View, ir: SemanticIR, includeAsync: bool, depth: nat, h: Id, c: Id, f: Id, r: Id, v: Id)
    returns (cs: seq<Config>, arcs: seq<Jump>)
    requires Embeds(g, ir, includeAsync, h, c) && depth > 0 && CallTarget(g.ops, ir.edges, includeAsync, c, f)
    requires f in g.ops && g.ops[f].kind.Function? && EntryOf(g.ops, ir.edges, f) == r
    requires r in g.ops && g.ops[r].kind.Return? && g.ops[r].scope == f && RawEdge(g.ops, ir.edges, h, v)
    ensures RunTo(g, depth, h, v, cs, arcs) && OpsOf(cs) == [h, c, f, r, v] && cs[4].stack == []
    ensures |arcs| == 4 && forall k :: 0 <= k < 4 && arcs[k].kind.CallEnter? ==> cs[k].op == c
  {
    var into, over, back := Jump(h, c, EmbeddedCall, c), Jump(f, r, FunctionEntry, NO_ID), Jump(r, v, CallReturn, c);
    var enter, d := EnterStep(g, ir, includeAsync, depth, c, f, []);
    BodySteps(g, ir, includeAsync, depth, h, c, f, r, d.stack);
    ReturnStep(g, ir, includeAsync, depth, h, c, f, r, v);
    arcs := [into, enter, over, back];
    cs := FourSteps(g, depth, Config(h, []), Config(c, []), d, Config(r, d.stack), Config(v, []), arcs);
  }

  lemma BodySteps(
        g: View, ir: SemanticIR, includeAsync: bool, depth: nat, h: Id, c: Id, f: Id, r: Id, stack: seq<Frame>)
    requires Embeds(g, ir, includeAsync, h, c)
    requires f in g.ops && g.ops[f].kind.Function? && EntryOf(g.ops, ir.edges, f) == r
    ensures Step(g, depth, Config(h, []), Jump(h, c, EmbeddedCall, c), Config(c, []))
    ensures Step(g, depth, Config(f, stack), Jump(f, r, FunctionEntry, NO_ID), Config(r, stack))
  {
    assert BuiltArc(g.ops, ir.edges, includeAsync, Jump(h, c, EmbeddedCall, c));
    assert BuiltArc(g.ops, ir.edges, includeAsync, Jump(f, r, FunctionEntry, NO_ID));
  }

  lemma FourSteps(g: View, depth: nat, c0: Config, c1: Config, c2: Config, c3: Config, c4: Config, arcs: seq<Jump>)
    returns (cs: seq<Config>)
    requires |arcs| == 4
    requires Step(g, depth, c0, arcs[0], c1) && Step(g, depth, c1, arcs[1], c2)
    requires Step(g, depth, c2, arcs[2], c3) && Step(g, depth, c3, arcs[3], c4)
    ensures cs == [c0, c1, c2, c3, c4] && IsRun(g, depth, cs, arcs)
    ensures OpsOf(cs) == [c0.op, c1.op, c2.op, c3.op, c4.op]
  {
    cs := [c0, c1, c2, c3, c4];
    assert OpsOf(cs) == [c0.op, c1.op, c2.op, c3.op, c4.op];
  }

  lemma ReturnStep(g: View, ir: SemanticIR, includeAsync: bool, depth: nat, h: Id, c: Id, f: Id, r: Id, v: Id)
    requires Embeds(g, ir, includeAsync, h, c) && CallTarget(g.ops, ir.edges, includeAsync, c, f)
    requires r in g.ops && g.ops[r].kind.Return? && g.ops[r].scope == f && RawEdge(g.ops, ir.edges, h, v)
    ensures Step(g, depth, Config(r, [Frame(c, f, Lookup(g.continuations, c))]), Jump(r, v, CallReturn, c),
            Config(v, []))
  {
    assert f in Lookup(g.targets, c) && Anchor(g.ops, includeAsync, c) == h;
    assert BuiltArc(g.ops, ir.edges, includeAsync, Jump(r, v, CallReturn, c));
  }

  /** Both calls belong to the host, but a run leaves it having entered only f, not g: the condition
      fails for each of them, since the host embeds the other. */
  lemma OneOfTwoCallsIsSkipped(g: View, ir: SemanticIR, depth: nat) returns (cs: seq<Config>, arcs: seq<Jump>)
    requires IsNested(ir) && BuiltFrom(g, ir, false) && depth > 0
    ensures UniqueIds(ir.operations) && Embeds(g, ir, false, 3, 4) && Embeds(g, ir, false, 3, 5)
    ensures CallTarget(g.ops, ir.edges, false, 5, 2) && RawEdge(g.ops, ir.edges, 3, 8)
    ensures RunTo(g, depth, 3, 8, cs, arcs) && OpsOf(cs) == [3, 4, 1, 6, 8] && cs[4].stack == []
    ensures !MustEnter(g, depth, 3, 5)
  {
    NestedOps(ir);
    NestedFacts(ir, g.ops);
    NestedEntry(ir, g.ops);
    cs, arcs := ThroughCall(g, ir, false, depth, 3, 4, 1, 6, 8);
    assert OpsOf(cs)[4] == 8;
    assert !EnteredBetween(cs, arcs, 0, |arcs|, 5, []);
  }
}
