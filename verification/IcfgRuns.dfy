/** Stack-consistent runs of an interprocedural control-flow graph: what a path query means.

    View is the part of a built graph that traversal looks at. */
module IcfgRuns {
  import opened Walks
  import opened Ir
  import opened ControlFlow

  datatype ArcKind = CtrlFlow | EmbeddedCall | CallEnter | CallReturn | FunctionEntry

  datatype Jump = Jump(source: Id, target: Id, kind: ArcKind, callId: Id)

  datatype Frame = Frame(callId: Id, calleeScope: Id, continuations: seq<Id>)

  /** A search state: an operation and the open calls, innermost last. */
  datatype Config = Config(op: Id, stack: seq<Frame>)

  datatype View = View(
    ops: map<Id, Op>, arcs: set<Jump>,
    targets: map<Id, seq<Id>>, continuations: map<Id, seq<Id>>)

  ghost predicate ArcsInside(g: View) {
    forall a :: a in g.arcs ==> a.source in g.ops && a.target in g.ops
  }

  function Top(stack: seq<Frame>): Frame
    requires stack != []
  {
    stack[|stack| - 1]
  }

  /** One transition of the search, with the frame checks of the traversal. */
  ghost predicate Step(g: View, depth: nat, c: Config, a: Jump, d: Config) {
    && a in g.arcs && a.source == c.op && a.target == d.op && c.op in g.ops
    && match a.kind
       case CallEnter =>
         && |c.stack| < depth
         && a.target in Lookup(g.targets, a.callId)
         && d.stack == c.stack + [Frame(a.callId, a.target, Lookup(g.continuations, a.callId))]
       case CallReturn =>
         && c.stack != []
         && Top(c.stack).callId == a.callId
         && Top(c.stack).calleeScope == g.ops[c.op].scope
         && a.target in Top(c.stack).continuations
         && d.stack == c.stack[..|c.stack| - 1]
       case _ => d.stack == c.stack
  }

  ghost predicate IsRun(g: View, depth: nat, cs: seq<Config>, arcs: seq<Jump>) {
    && |cs| == |arcs| + 1
    && forall i, j :: 0 <= i && j == i + 1 && j < |cs| ==> Step(g, depth, cs[i], arcs[i], cs[j])
  }

  ghost predicate RunFrom(g: View, depth: nat, source: Id, cs: seq<Config>, arcs: seq<Jump>) {
    IsRun(g, depth, cs, arcs) && cs[0] == Config(source, [])
  }

  ghost predicate RunTo(g: View, depth: nat, source: Id, target: Id, cs: seq<Config>, arcs: seq<Jump>) {
    RunFrom(g, depth, source, cs, arcs) && cs[|cs| - 1].op == target
  }

  /** Every run to the target takes at least n steps. */
  ghost predicate NoRunShorterThan(g: View, depth: nat, source: Id, target: Id, n: nat) {
    forall cs, arcs :: RunTo(g, depth, source, target, cs, arcs) ==> |arcs| >= n
  }

  ghost predicate NoRun(g: View, depth: nat, source: Id, target: Id) {
    forall cs, arcs :: !RunTo(g, depth, source, target, cs, arcs)
  }

  // ---------- nesting ----------

  datatype Calls = Mismatch | Open(calls: seq<Id>)

  /** Reads an arc word from the left; Mismatch when a return does not close the latest open call. */
  ghost function OpenCalls(arcs: seq<Jump>): Calls {
    if arcs == [] then Open([])
    else
      var before := OpenCalls(arcs[..|arcs| - 1]);
      var a := arcs[|arcs| - 1];
      if before.Mismatch? then Mismatch
      else if a.kind.CallEnter? then Open(before.calls + [a.callId])
      else if !a.kind.CallReturn? then before
      else if before.calls != [] && before.calls[|before.calls| - 1] == a.callId
      then Open(before.calls[..|before.calls| - 1])
      else Mismatch
  }

  ghost function CountKind(arcs: seq<Jump>, kind: ArcKind): nat {
    if arcs == [] then 0
    else CountKind(arcs[..|arcs| - 1], kind) + (if arcs[|arcs| - 1].kind == kind then 1 else 0)
  }

  ghost function CallIds(stack: seq<Frame>): seq<Id> {
    seq(|stack|, i requires 0 <= i < |stack| => stack[i].callId)
  }

  lemma PrefixRun(g: View, depth: nat, cs: seq<Config>, arcs: seq<Jump>, n: nat)
    requires IsRun(g, depth, cs, arcs) && n < |cs|
    ensures IsRun(g, depth, cs[..n + 1], arcs[..n])
  {}

  /** The enter/return word of a run is a prefix of a well-nested word, and the stack is exactly
      its open calls. */
  lemma {:induction false} RunsAreNested(g: View, depth: nat, source: Id, cs: seq<Config>, arcs: seq<Jump>)
    requires RunFrom(g, depth, source, cs, arcs)
    ensures OpenCalls(arcs) == Open(CallIds(cs[|cs| - 1].stack))
    decreases |arcs|
  {
    if arcs != [] {
      var n := |arcs| - 1;
      PrefixRun(g, depth, cs, arcs, n);
      RunsAreNested(g, depth, source, cs[..n + 1], arcs[..n]);
      StepMovesCalls(g, depth, cs[n], arcs[n], cs[n + 1]);
    } else {
      assert CallIds(cs[0].stack) == [];
    }
  }

  lemma StepMovesCalls(g: View, depth: nat, c: Config, a: Jump, d: Config)
    requires Step(g, depth, c, a, d)
    ensures a.kind.CallEnter? ==> CallIds(d.stack) == CallIds(c.stack) + [a.callId]
    ensures a.kind.CallReturn? ==>
              c.stack != [] && CallIds(c.stack)[|c.stack| - 1] == a.callId &&
              CallIds(d.stack) == CallIds(c.stack)[..|c.stack| - 1]
    ensures !a.kind.CallEnter? && !a.kind.CallReturn? ==> CallIds(d.stack) == CallIds(c.stack)
  {}

  /** The depth bound holds throughout, and depth is enters minus returns. */
  lemma {:induction false} DepthCountsCalls(g: View, depth: nat, source: Id, cs: seq<Config>, arcs: seq<Jump>)
    requires RunFrom(g, depth, source, cs, arcs)
    ensures |cs[|cs| - 1].stack| <= depth
    ensures |cs[|cs| - 1].stack| == CountKind(arcs, CallEnter) - CountKind(arcs, CallReturn)
    decreases |arcs|
  {
    if arcs != [] {
      var n := |arcs| - 1;
      PrefixRun(g, depth, cs, arcs, n);
      DepthCountsCalls(g, depth, source, cs[..n + 1], arcs[..n]);
      assert Step(g, depth, cs[n], arcs[n], cs[n + 1]);
    }
  }

  // ---------- words ----------

  datatype Pending = Stuck | Waiting(enters: seq<Jump>)

  /** Reads an arc word from the left and keeps the enter arcs of the calls still open.  A return has to close
      the latest of them, from the scope it entered and onto one of its continuations. */
  ghost function PendingAfter(g: View, arcs: seq<Jump>): Pending
    decreases |arcs|
  {
    if arcs == [] then Waiting([])
    else
      var before, a := PendingAfter(g, arcs[..|arcs| - 1]), arcs[|arcs| - 1];
      if before.Stuck? then Stuck
      else if a.kind.CallEnter? then Waiting(before.enters + [a])
      else if !a.kind.CallReturn? then before
      else if before.enters != [] && Closes(g, before.enters[|before.enters| - 1], a)
      then Waiting(before.enters[..|before.enters| - 1])
      else Stuck
  }

  ghost predicate Closes(g: View, enter: Jump, back: Jump) {
    && enter.callId == back.callId && back.source in g.ops && enter.target == g.ops[back.source].scope
    && back.target in Lookup(g.continuations, back.callId)
  }

  /** A chain of arcs from the source that nests its calls, never more than depth of them open. */
  ghost predicate Nested(g: View, depth: nat, source: Id, arcs: seq<Jump>) {
    Chain(g, source, arcs) && forall n :: 0 <= n <= |arcs| ==> StaysWithin(g, depth, arcs[..n])
  }

  ghost predicate Chain(g: View, source: Id, arcs: seq<Jump>) {
    forall i :: 0 <= i < |arcs| ==> arcs[i] in g.arcs && arcs[i].source == EndOf(source, arcs[..i])
  }

  ghost predicate StaysWithin(g: View, depth: nat, arcs: seq<Jump>) {
    PendingAfter(g, arcs).Waiting? && |PendingAfter(g, arcs).enters| <= depth
  }

  lemma NestedPrefix(g: View, depth: nat, source: Id, arcs: seq<Jump>, n: nat)
    requires n <= |arcs| && Nested(g, depth, source, arcs)
    ensures Nested(g, depth, source, arcs[..n])
  {
    assert forall i :: 0 <= i <= n ==> arcs[..n][..i] == arcs[..i];
  }

  /** Enter arcs lead to targets of their call. */
  ghost predicate EntersTargets(g: View) {
    ArcsInside(g) && forall a :: a in g.arcs && a.kind.CallEnter? ==> a.target in Lookup(g.targets, a.callId)
  }

  ghost function FramesOf(g: View, enters: seq<Jump>): seq<Frame> {
    seq(|enters|, i requires 0 <= i < |enters| =>
      Frame(enters[i].callId, enters[i].target, Lookup(g.continuations, enters[i].callId)))
  }

  ghost function EndOf(source: Id, arcs: seq<Jump>): Id {
    if arcs == [] then source else arcs[|arcs| - 1].target
  }

  /** A nested chain is a run: the stack holds the frames of its open calls. */
  lemma {:induction false} NestedIsRun(g: View, depth: nat, source: Id, arcs: seq<Jump>) returns (cs: seq<Config>)
    requires EntersTargets(g) && Nested(g, depth, source, arcs)
    ensures RunFrom(g, depth, source, cs, arcs) && StaysWithin(g, depth, arcs)
    ensures cs[|cs| - 1] == Config(EndOf(source, arcs), FramesOf(g, PendingAfter(g, arcs).enters))
    decreases |arcs|
  {
    assert arcs[..|arcs|] == arcs && StaysWithin(g, depth, arcs[..|arcs|]);
    if arcs == [] {
      cs := [Config(source, [])];
      assert FramesOf(g, []) == [];
    } else {
      var n, a := |arcs| - 1, arcs[|arcs| - 1];
      NestedPrefix(g, depth, source, arcs, n);
      assert a in g.arcs && a.source == EndOf(source, arcs[..n]);
      var before := NestedIsRun(g, depth, source, arcs[..n]);
      var d := Config(a.target, FramesOf(g, PendingAfter(g, arcs).enters));
      NestedStep(g, depth, PendingAfter(g, arcs[..n]).enters, before[n], arcs, d);
      cs := RunOneMore(g, depth, before, arcs, d);
    }
  }

  lemma RunOneMore(g: View, depth: nat, before: seq<Config>, arcs: seq<Jump>, d: Config) returns (cs: seq<Config>)
    requires arcs != [] && IsRun(g, depth, before, arcs[..|arcs| - 1])
    requires Step(g, depth, before[|arcs| - 1], arcs[|arcs| - 1], d)
    ensures IsRun(g, depth, cs, arcs) && cs == before + [d]
  {
    cs := before + [d];
  }

  lemma NestedStep(g: View, depth: nat, enters: seq<Jump>, c: Config, arcs: seq<Jump>, d: Config)
    requires arcs != [] && PendingAfter(g, arcs[..|arcs| - 1]) == Waiting(enters) && PendingAfter(g, arcs).Waiting?
    requires EntersTargets(g) && arcs[|arcs| - 1] in g.arcs && StaysWithin(g, depth, arcs)
    requires c == Config(arcs[|arcs| - 1].source, FramesOf(g, enters))
    requires d == Config(arcs[|arcs| - 1].target, FramesOf(g, PendingAfter(g, arcs).enters))
    ensures Step(g, depth, c, arcs[|arcs| - 1], d)
  {
    var a := arcs[|arcs| - 1];
    if a.kind.CallEnter? {
      assert FramesOf(g, enters + [a]) ==
             FramesOf(g, enters) + [Frame(a.callId, a.target, Lookup(g.continuations, a.callId))];
    } else if a.kind.CallReturn? {
      assert FramesOf(g, enters[..|enters| - 1]) == FramesOf(g, enters)[..|enters| - 1];
    }
  }

  /** And a run nests its calls. */
  lemma {:induction false} RunIsNested(g: View, depth: nat, source: Id, cs: seq<Config>, arcs: seq<Jump>)
    requires RunFrom(g, depth, source, cs, arcs)
    ensures Nested(g, depth, source, arcs) && StaysWithin(g, depth, arcs)
    ensures cs[|cs| - 1] == Config(EndOf(source, arcs), FramesOf(g, PendingAfter(g, arcs).enters))
    decreases |arcs|
  {
    assert arcs[..|arcs|] == arcs;
    if arcs == [] {
      assert FramesOf(g, []) == [];
    } else {
      var n := |arcs| - 1;
      PrefixRun(g, depth, cs, arcs, n);
      RunIsNested(g, depth, source, cs[..n + 1], arcs[..n]);
      assert Step(g, depth, cs[n], arcs[n], cs[n + 1]);
      RunStepNests(g, depth, PendingAfter(g, arcs[..n]).enters, cs[n], arcs, cs[n + 1]);
      NestedOneMore(g, depth, source, arcs);
    }
  }

  lemma RunStepNests(g: View, depth: nat, enters: seq<Jump>, c: Config, arcs: seq<Jump>, d: Config)
    requires arcs != [] && PendingAfter(g, arcs[..|arcs| - 1]) == Waiting(enters) && |enters| <= depth
    requires c.stack == FramesOf(g, enters) && Step(g, depth, c, arcs[|arcs| - 1], d)
    ensures StaysWithin(g, depth, arcs)
    ensures d.stack == FramesOf(g, PendingAfter(g, arcs).enters)
  {
    var a := arcs[|arcs| - 1];
    if a.kind.CallEnter? {
      assert FramesOf(g, enters + [a]) ==
             FramesOf(g, enters) + [Frame(a.callId, a.target, Lookup(g.continuations, a.callId))];
    } else if a.kind.CallReturn? {
      assert FramesOf(g, enters[..|enters| - 1]) == FramesOf(g, enters)[..|enters| - 1];
    }
  }

  lemma NestedOneMore(g: View, depth: nat, source: Id, arcs: seq<Jump>)
    requires arcs != [] && Nested(g, depth, source, arcs[..|arcs| - 1]) && arcs[|arcs| - 1] in g.arcs
    requires arcs[|arcs| - 1].source == EndOf(source, arcs[..|arcs| - 1])
    requires StaysWithin(g, depth, arcs)
    ensures Nested(g, depth, source, arcs)
  {
    var n := |arcs| - 1;
    assert arcs[..|arcs|] == arcs;
    assert forall m :: 0 <= m <= n ==> arcs[..n][..m] == arcs[..m];
    forall m | 0 <= m <= |arcs| ensures StaysWithin(g, depth, arcs[..m]) {
      if m <= n { assert StaysWithin(g, depth, arcs[..n][..m]); }
    }
    forall i | 0 <= i < |arcs| ensures arcs[i] in g.arcs && arcs[i].source == EndOf(source, arcs[..i]) {
      if i < n { assert arcs[..n][i] == arcs[i]; }
    }
  }

  /** The runs are exactly the nested chains. */
  lemma RunIff(g: View, depth: nat, source: Id, arcs: seq<Jump>)
    requires EntersTargets(g)
    ensures (exists cs :: RunFrom(g, depth, source, cs, arcs)) <==> Nested(g, depth, source, arcs)
  {
    if cs :| RunFrom(g, depth, source, cs, arcs) { RunIsNested(g, depth, source, cs, arcs); }
    if Nested(g, depth, source, arcs) { var cs := NestedIsRun(g, depth, source, arcs); }
  }

  // ---------- matched calls ----------

  ghost predicate IsPrefix<T>(s: seq<T>, t: seq<T>) {
    |s| <= |t| && t[..|s|] == s
  }

  /** The frame pushed by step k is the top frame of every later stack that still has it. */
  ghost predicate OpenedAt(cs: seq<Config>, arcs: seq<Jump>, k: nat, n: nat)
    requires |cs| == |arcs| + 1 && k < n <= |arcs|
  {
    && arcs[k].kind.CallEnter? && cs[k + 1].stack != []
    && cs[k + 1].stack == cs[k].stack + [Top(cs[k + 1].stack)]
    && forall m :: k < m <= n ==> IsPrefix(cs[k + 1].stack, cs[m].stack)
  }

  /** Every open frame was pushed by one step of the run, and has stayed open since. */
  lemma {:induction false} FrameWasPushed(g: View, depth: nat, source: Id, cs: seq<Config>, arcs: seq<Jump>, n: nat,
          f: nat)
    returns (k: nat)
    requires RunFrom(g, depth, source, cs, arcs) && n < |cs| && f < |cs[n].stack|
    ensures k < n && OpenedAt(cs, arcs, k, n)
    ensures |cs[k].stack| == f && cs[k + 1].stack == cs[n].stack[..f + 1]
    decreases n
  {
    assert n > 0;
    assert Step(g, depth, cs[n - 1], arcs[n - 1], cs[n]);
    if arcs[n - 1].kind.CallEnter? && f == |cs[n].stack| - 1 {
      k := n - 1;
      assert cs[n].stack[..f + 1] == cs[n].stack;
    } else {
      assert f < |cs[n - 1].stack|;
      assert cs[n].stack[..f + 1] == cs[n - 1].stack[..f + 1];
      k := FrameWasPushed(g, depth, source, cs, arcs, n - 1, f);
      assert IsPrefix(cs[k + 1].stack, cs[n].stack);
    }
  }

  /** Each return matches the latest open call: the segment between starts with that call's
      enter arc and never leaves the frame, the return leaves from the callee's scope, the stack
      is back where it was, and control lands on one of the call's continuations. */
  lemma ReturnMatchesCall(g: View, depth: nat, source: Id, cs: seq<Config>, arcs: seq<Jump>, j: nat) returns (k: nat)
    requires RunFrom(g, depth, source, cs, arcs) && j < |arcs| && arcs[j].kind.CallReturn?
    ensures k < j && OpenedAt(cs, arcs, k, j)
    ensures arcs[k].callId == arcs[j].callId && arcs[k].source == cs[k].op
    ensures cs[j].op in g.ops && arcs[k].target == g.ops[cs[j].op].scope
    ensures cs[j].stack == cs[k + 1].stack && cs[j + 1].stack == cs[k].stack
    ensures cs[j + 1].op in Lookup(g.continuations, arcs[k].callId)
  {
    assert Step(g, depth, cs[j], arcs[j], cs[j + 1]);
    k := FrameWasPushed(g, depth, source, cs, arcs, j, |cs[j].stack| - 1);
    assert Step(g, depth, cs[k], arcs[k], cs[k + 1]);
    assert cs[j].stack[..|cs[j].stack|] == cs[j].stack;
  }

  // ---------- erasing matched calls ----------

  /** Steps that stay inside one frame: control flow, reaching an embedded call, entering a
      function body, and jumping over a matched call to one of its continuations. */
  ghost predicate ErasedStep(g: View, u: Id, v: Id) {
    || (exists a :: a in g.arcs && a.source == u && a.target == v &&
                    (a.kind.CtrlFlow? || a.kind.EmbeddedCall? || a.kind.FunctionEntry?))
    || (exists a :: a in g.arcs && a.source == u && a.kind.CallEnter? && v in Lookup(g.continuations, a.callId))
  }

  /** An erased step between states of one frame. */
  ghost predicate StaysInFrame(g: View, c: Config, d: Config) {
    d.stack == c.stack && ErasedStep(g, c.op, d.op)
  }

  /** A call that is entered and still open where the run ends. */
  ghost predicate OpensFrame(g: View, c: Config, d: Config) {
    && d.stack != [] && d.stack[..|d.stack| - 1] == c.stack
    && exists a :: a in g.arcs && a.kind.CallEnter? && a.source == c.op && a.target == d.op
  }

  /** The states of a run that remain when its matched calls are erased. */
  ghost predicate ErasedTrace(g: View, w: seq<Config>) {
    |w| > 0 && forall i, j :: 0 <= i && j == i + 1 && j < |w| ==>
      StaysInFrame(g, w[i], w[j]) || OpensFrame(g, w[i], w[j])
  }

  /** The marks of the steps of a trace that open a frame. */
  ghost function Openings(w: seq<Config>): seq<bool>
    requires w != []
    decreases |w|
  {
    if |w| == 1 then [] else Openings(w[..|w| - 1]) + [|w[|w| - 2].stack| < |w[|w| - 1].stack|]
  }

  ghost function CountOpen(marks: seq<bool>): nat
    decreases |marks|
  {
    if marks == [] then 0 else CountOpen(marks[..|marks| - 1]) + (if marks[|marks| - 1] then 1 else 0)
  }

  lemma {:induction false} OpeningsAre(w: seq<Config>)
    requires w != []
    ensures |Openings(w)| == |w| - 1
    ensures forall i, j :: 0 <= i && j == i + 1 && j < |w| ==> Openings(w)[i] == (|w[i].stack| < |w[j].stack|)
    decreases |w|
  {
    if |w| > 1 { OpeningsAre(w[..|w| - 1]); }
  }

  lemma TraceOneMore(g: View, u: seq<Config>, d: Config)
    requires ErasedTrace(g, u) && CountOpen(Openings(u)) == |u[|u| - 1].stack|
    requires StaysInFrame(g, u[|u| - 1], d) || OpensFrame(g, u[|u| - 1], d)
    ensures ErasedTrace(g, u + [d]) && CountOpen(Openings(u + [d])) == |d.stack|
  {
    var w := u + [d];
    assert w[..|u|] == u;
    var marks := Openings(u) + [|u[|u| - 1].stack| < |d.stack|];
    assert marks[..|marks| - 1] == Openings(u);
  }

  /** Erasing the matched calls of any run leaves a trace whose steps are all justified inside
      a frame, but for exactly one entered call per frame that is still open at the end. */
  lemma {:induction false} CallErasure(g: View, depth: nat, source: Id, cs: seq<Config>, arcs: seq<Jump>, n: nat)
    returns (w: seq<Config>)
    requires RunFrom(g, depth, source, cs, arcs) && n < |cs|
    ensures ErasedTrace(g, w) && w[0] == Config(source, []) && w[|w| - 1] == cs[n]
    ensures CountOpen(Openings(w)) == |cs[n].stack|
    ensures forall i :: 0 <= i < |w| ==> w[i] in cs[..n + 1]
    decreases n
  {
    if n == 0 {
      w := [cs[0]];
      assert cs[0] in cs[..1];
      return;
    }
    var a := arcs[n - 1];
    assert Step(g, depth, cs[n - 1], a, cs[n]);
    var k := n - 1;
    if a.kind.CallReturn? {
      k := ReturnMatchesCall(g, depth, source, cs, arcs, n - 1);
      assert Step(g, depth, cs[k], arcs[k], cs[k + 1]);
    }
    var u := CallErasure(g, depth, source, cs, arcs, k);
    w := u + [cs[n]];
    TraceOneMore(g, u, cs[n]);
    assert cs[n] in cs[..n + 1];
    forall i | 0 <= i < |u| ensures u[i] in cs[..n + 1] {
      assert u[i] in cs[..k + 1];
    }
  }
}
