/** Conservative call linking with type propagation (SemanticLinker,
    smartbench/analysis/interprocedural.py). */
module Linker {
  import opened Sequences
  import opened Ir

  datatype Func = Func(
    id: Id, language: string, position: nat, qualified: string, namespace: string, simple: string,
    receiverType: string, returnTypes: seq<string>)

  /** A call with its normalized target; receiver is the attribute or the target's prefix. */
  datatype CallSite = CallSite(
    id: Id, language: string, scope: Id, target: string, simple: string, dotted: bool, receiver: string,
    resultTargets: seq<string>)

  datatype Resolution = Empty | Qualified | Namespace | LexicalReceiver | TypedReceiver | UnresolvedReceiver |
          UniqueSimple

  datatype Candidates = Candidates(functions: seq<Func>, resolution: Resolution)

  /** Spelling rules and the caller facts they read; any functions will do. */
  datatype LinkText = LinkText(
    normalizeType: string -> string,
    typeName: string -> string,
    methodOf: (string, string) -> string,
    callerNamespace: CallSite -> string,
    contextualTarget: CallSite -> string)

  /** Known types of a variable in a scope. */
  type TypeEnv = map<(Id, string), set<string>>

  function TypesAt(env: TypeEnv, scope: Id, variable: string): set<string> {
    if (scope, variable) in env then env[(scope, variable)] else {}
  }

  function AddType(env: TypeEnv, scope: Id, variable: string, t: string): TypeEnv {
    env[(scope, variable) := TypesAt(env, scope, variable) + {t}]
  }

  /** Types are only ever added. */
  ghost predicate EnvLeq(a: TypeEnv, b: TypeEnv) {
    forall scope, variable :: TypesAt(a, scope, variable) <= TypesAt(b, scope, variable)
  }

  // ---------- resolution ----------

  function FuncLeq(a: Func, b: Func): bool {
    a.position < b.position || (a.position == b.position && a.id <= b.id)
  }

  function Exact(functions: seq<Func>, language: string, name: string): seq<Func> {
    Filter((f: Func) => f.language == language && f.qualified == name, functions)
  }

  function ByNamespace(functions: seq<Func>, language: string, namespace: string, simple: string): seq<Func> {
    Filter((f: Func) => f.language == language && f.namespace != "" && f.namespace == namespace &&
      f.simple == simple, functions)
  }

  function BySimple(functions: seq<Func>, language: string, simple: string): seq<Func> {
    Filter((f: Func) => f.language == language && f.simple == simple, functions)
  }

  function Methods(t: LinkText, functions: seq<Func>, language: string, typeName: string, simple: string): seq<Func> {
    Filter((f: Func) => f.language == language && t.normalizeType(f.receiverType) != "" &&
                        t.typeName(t.normalizeType(f.receiverType)) == typeName && f.simple == simple, functions)
  }

  function NormalizedTypes(t: LinkText, types: set<string>): set<string> {
    set d | d in types && t.normalizeType(d) != "" :: t.normalizeType(d)
  }

  /** _typed_method_candidates: the receiver must have exactly one normalized type. */
  function TypedCandidates(t: LinkText, functions: seq<Func>, call: CallSite, env: TypeEnv): seq<Func> {
    var types := NormalizedTypes(t, TypesAt(env, call.scope, call.receiver));
    if |types| != 1 then []
    else
      assert exists x :: types == {x} by { SingletonSet(types); }
      var x :| types == {x};
      CandidatesOfType(t, functions, call, x)
  }

  function CandidatesOfType(t: LinkText, functions: seq<Func>, call: CallSite, normalized: string): seq<Func> {
    var exact := Exact(functions, call.language, t.methodOf(normalized, call.simple));
    var global_ := Methods(t, functions, call.language, t.typeName(normalized), call.simple);
    var scoped := Filter((f: Func) => f.namespace == t.callerNamespace(call), global_);
    Sort(FuncLeq, Dedupe(exact + (if scoped != [] then scoped else global_)))
  }

  /** Keeps the first occurrence of each function (candidates are collected by id). */
  function Dedupe(functions: seq<Func>): seq<Func>
    decreases |functions|
  {
    if functions == [] then []
    else [functions[0]] + Dedupe(Filter((f: Func) => f.id != functions[0].id, functions[1..]))
  }

  /** _resolve_call */
  function Resolve(t: LinkText, functions: seq<Func>, call: CallSite, env: TypeEnv): Candidates {
    var namespace := t.callerNamespace(call);
    var exact := Exact(functions, call.language, call.target);
    var inNamespace := ByNamespace(functions, call.language, namespace, call.simple);
    var contextual := Exact(functions, call.language, t.contextualTarget(call));
    var typed := TypedCandidates(t, functions, call, env);
    if call.target == "" then Candidates([], Empty)
    else if exact != [] then Candidates(exact, Qualified)
    else if namespace != "" && |inNamespace| == 1 && !call.dotted then Candidates(inNamespace, Namespace)
    else if t.contextualTarget(call) != "" && contextual != [] then Candidates(contextual, LexicalReceiver)
    else if call.dotted then
      if typed != [] then Candidates(typed, TypedReceiver) else Candidates([], UnresolvedReceiver)
    else Candidates(BySimple(functions, call.language, call.simple), UniqueSimple)
  }

  // ---------- type propagation ----------

  /** _propagate_return_types: zip the result targets with the callee's return types. */
  function Propagate(t: LinkText, env: TypeEnv, call: CallSite, target: Func): TypeEnv {
    if call.resultTargets == [] || target.returnTypes == [] then env
    else if |target.returnTypes| == 1 && |call.resultTargets| != 1 then env
    else AddZipped(t, env, call.scope, call.resultTargets, target.returnTypes)
  }

  function AddZipped(t: LinkText, env: TypeEnv, scope: Id, variables: seq<string>, types: seq<string>): TypeEnv
    decreases |variables|
  {
    if variables == [] || types == [] then env
    else
      var next := if variables[0] == "" || t.normalizeType(types[0]) == "" then env
                  else AddType(env, scope, variables[0], types[0]);
      AddZipped(t, next, scope, variables[1..], types[1..])
  }

  lemma {:induction false} AddZippedGrows(t: LinkText, env: TypeEnv, scope: Id, variables: seq<string>,
          types: seq<string>)
    ensures EnvLeq(env, AddZipped(t, env, scope, variables, types))
    decreases |variables|
  {
    if variables != [] && types != [] {
      var next := if variables[0] == "" || t.normalizeType(types[0]) == "" then env
                  else AddType(env, scope, variables[0], types[0]);
      assert EnvLeq(env, next);
      AddZippedGrows(t, next, scope, variables[1..], types[1..]);
    }
  }

  lemma PropagateGrows(t: LinkText, env: TypeEnv, call: CallSite, target: Func)
    ensures EnvLeq(env, Propagate(t, env, call, target))
  {
    AddZippedGrows(t, env, call.scope, call.resultTargets, target.returnTypes);
  }

  // ---------- what growth can change ----------

  /** Only typed-receiver resolution depends on the environment, and only through the receiver's
      normalized types. */
  lemma ResolutionDependsOnReceiverTypes(t: LinkText, functions: seq<Func>, call: CallSite, a: TypeEnv, b: TypeEnv)
    requires NormalizedTypes(t, TypesAt(a, call.scope, call.receiver)) ==
             NormalizedTypes(t, TypesAt(b, call.scope, call.receiver))
    ensures Resolve(t, functions, call, a) == Resolve(t, functions, call, b)
  {}

  lemma OnlyTypedResolutionMoves(t: LinkText, functions: seq<Func>, call: CallSite, a: TypeEnv, b: TypeEnv)
    requires !Resolve(t, functions, call, a).resolution.TypedReceiver? &&
             !Resolve(t, functions, call, a).resolution.UnresolvedReceiver?
    ensures Resolve(t, functions, call, b) == Resolve(t, functions, call, a)
  {}

  /** A call linked under an earlier environment still resolves the same way later exactly when
      it was not linked through its receiver's type, or that type is still the only one. */
  lemma StillUniqueIff(t: LinkText, functions: seq<Func>, call: CallSite, a: TypeEnv, b: TypeEnv, target: Func)
    requires EnvLeq(a, b) && Resolve(t, functions, call, a).functions == [target]
    ensures Resolve(t, functions, call, b).functions == [target] <==>
            (Resolve(t, functions, call, a).resolution.TypedReceiver? ==>
               |NormalizedTypes(t, TypesAt(b, call.scope, call.receiver))| == 1)
  {
    if Resolve(t, functions, call, a).resolution.TypedReceiver? {
      var before := NormalizedTypes(t, TypesAt(a, call.scope, call.receiver));
      var after := NormalizedTypes(t, TypesAt(b, call.scope, call.receiver));
      assert TypesAt(a, call.scope, call.receiver) <= TypesAt(b, call.scope, call.receiver);
      assert |before| == 1 && before <= after;
      if |after| == 1 {
        SingletonSet(before);
        SingletonSet(after);
        assert before == after;
        ResolutionDependsOnReceiverTypes(t, functions, call, a, b);
      }
    } else {
      OnlyTypedResolutionMoves(t, functions, call, a, b);
    }
  }

  // ---------- the fixpoint ----------

  type Links = map<Id, (Func, Resolution)>

  ghost predicate UniqueCalls(calls: seq<CallSite>) {
    forall i, j :: 0 <= i < j < |calls| ==> calls[i].id != calls[j].id
  }

  /** The state of the linking loop: the calls still to visit in this round, those kept for the
      next one, how many the round began with, and what has been learned. */
  datatype LinkState = LinkState(
    pending: seq<CallSite>, next: seq<CallSite>, size: nat, env: TypeEnv, links: Links, progress: bool)

  function StartOf(calls: seq<CallSite>, localTypes: TypeEnv): LinkState {
    LinkState(calls, [], |calls|, localTypes, map[], false)
  }

  /** One call of a round: linked if it has a single candidate, else kept. */
  function Visit(t: LinkText, functions: seq<Func>, s: LinkState): LinkState
    requires s.pending != []
  {
    var call := s.pending[0];
    var candidates := Resolve(t, functions, call, s.env);
    if |candidates.functions| != 1 then s.(pending := s.pending[1..], next := s.next + [call])
    else
      var grown := Propagate(t, s.env, call, candidates.functions[0]);
      s.(pending := s.pending[1..], env := grown, progress := s.progress || grown != s.env,
         links := s.links[call.id := (candidates.functions[0], candidates.resolution)])
  }

  /** The next state, or None where the loop ends. */
  function StepOf(t: LinkText, functions: seq<Func>, s: LinkState): Option<LinkState> {
    if s.pending != [] then Some(Visit(t, functions, s))
    else if s.next == [] || (|s.next| == s.size && !s.progress) then None
    else Some(LinkState(s.next, [], |s.next|, s.env, s.links, false))
  }

  ghost predicate LinkRun(t: LinkText, functions: seq<Func>, calls: seq<CallSite>, localTypes: TypeEnv,
          run: seq<LinkState>) {
    && |run| > 0 && run[0] == StartOf(calls, localTypes)
    && forall i, j :: 0 <= i && j == i + 1 && j < |run| ==> StepOf(t, functions, run[i]) == Some(run[j])
  }

  function Latest(run: seq<LinkState>): LinkState
    requires run != []
  {
    run[|run| - 1]
  }

  ghost predicate Finished(t: LinkText, functions: seq<Func>, run: seq<LinkState>)
    requires run != []
  {
    StepOf(t, functions, Latest(run)).None?
  }

  lemma RunOneMore(
        t: LinkText, functions: seq<Func>, calls: seq<CallSite>, localTypes: TypeEnv, run: seq<LinkState>,
        s: LinkState)
    requires LinkRun(t, functions, calls, localTypes, run) && StepOf(t, functions, Latest(run)) == Some(s)
    ensures LinkRun(t, functions, calls, localTypes, run + [s]) && Latest(run + [s]) == s
  {}

  /** The loop is deterministic: on one input all finished runs are the same. */
  lemma {:induction false} RunsAgree(
        t: LinkText, functions: seq<Func>, calls: seq<CallSite>, localTypes: TypeEnv, a: seq<LinkState>,
        b: seq<LinkState>, n: nat)
    requires LinkRun(t, functions, calls, localTypes, a) && LinkRun(t, functions, calls, localTypes, b)
    requires Finished(t, functions, a) && Finished(t, functions, b)
    ensures n < |a| <==> n < |b|
    ensures n < |a| ==> a[n] == b[n]
  {
    if n > 0 {
      RunsAgree(t, functions, calls, localTypes, a, b, n - 1);
      if n < |a| {
        assert StepOf(t, functions, a[n - 1]) == Some(a[n]);
        assert n < |b|;
      }
      if n < |b| {
        assert StepOf(t, functions, b[n - 1]) == Some(b[n]);
        assert n < |a|;
      }
    }
  }

  lemma OneOutcome(
        t: LinkText, functions: seq<Func>, calls: seq<CallSite>, localTypes: TypeEnv, a: seq<LinkState>,
        b: seq<LinkState>)
    requires LinkRun(t, functions, calls, localTypes, a) && LinkRun(t, functions, calls, localTypes, b)
    requires Finished(t, functions, a) && Finished(t, functions, b)
    ensures Latest(a) == Latest(b)
  {
    RunsAgree(t, functions, calls, localTypes, a, b, |a| - 1);
    RunsAgree(t, functions, calls, localTypes, a, b, |a|);
  }

  /** What every state of a run keeps: no call is lost, and while a round has linked nothing, its
      types are those it began with and every call it kept has no single candidate. */
  ghost predicate LinkInvariant(t: LinkText, functions: seq<Func>, calls: seq<CallSite>, s: LinkState) {
    && (forall c :: c in s.pending || c in s.next ==> c in calls)
    && (forall c :: c in calls ==> c in s.pending || c in s.next || c.id in s.links)
    && |s.next| + |s.pending| <= s.size
    && (|s.next| + |s.pending| == s.size ==> !s.progress && NoneUnique(t, functions, s.next, s.env))
  }

  ghost predicate NoneUnique(t: LinkText, functions: seq<Func>, calls: seq<CallSite>, env: TypeEnv) {
    forall c :: c in calls ==> |Resolve(t, functions, c, env).functions| != 1
  }

  lemma StepKeepsInvariant(t: LinkText, functions: seq<Func>, calls: seq<CallSite>, s: LinkState, s': LinkState)
    requires LinkInvariant(t, functions, calls, s) && StepOf(t, functions, s) == Some(s')
    ensures LinkInvariant(t, functions, calls, s') && EnvLeq(s.env, s'.env)
  {
    if s.pending != [] {
      assert s.pending == [s.pending[0]] + s.pending[1..];
      var candidates := Resolve(t, functions, s.pending[0], s.env);
      if |candidates.functions| == 1 { PropagateGrows(t, s.env, s.pending[0], candidates.functions[0]); }
    }
  }

  lemma {:induction false} RunKeepsInvariant(
        t: LinkText, functions: seq<Func>, calls: seq<CallSite>, localTypes: TypeEnv, run: seq<LinkState>, n: nat)
    requires LinkRun(t, functions, calls, localTypes, run) && n < |run|
    ensures LinkInvariant(t, functions, calls, run[n]) && EnvLeq(localTypes, run[n].env)
  {
    if n > 0 {
      RunKeepsInvariant(t, functions, calls, localTypes, run, n - 1);
      StepKeepsInvariant(t, functions, calls, run[n - 1], run[n]);
      EnvTransitive(localTypes, run[n - 1].env, run[n].env);
    }
  }

  /** The link was made in this run: at one of its states the call was visited, and the function
      was its only candidate under the types known at that state. */
  ghost predicate JustifiedLink(t: LinkText, functions: seq<Func>, run: seq<LinkState>, c: CallSite,
          link: (Func, Resolution)) {
    exists i :: 0 <= i < |run| && LinksHere(t, functions, run[i], c, link)
  }

  ghost predicate LinksHere(t: LinkText, functions: seq<Func>, s: LinkState, c: CallSite, link: (Func, Resolution)) {
    s.pending != [] && s.pending[0] == c && Resolve(t, functions, c, s.env) == Candidates([link.0], link.1)
  }

  lemma StepLinks(t: LinkText, functions: seq<Func>, s: LinkState, s': LinkState, id: Id)
    requires StepOf(t, functions, s) == Some(s') && id in s'.links
    ensures (id in s.links && s.links[id] == s'.links[id]) ||
            (s.pending != [] && s.pending[0].id == id && LinksHere(t, functions, s, s.pending[0], s'.links[id]))
  {
    if s.pending != [] {
      var candidates := Resolve(t, functions, s.pending[0], s.env);
      if |candidates.functions| == 1 {
        assert candidates.functions == [candidates.functions[0]];
      }
    }
  }

  lemma {:induction false} RunJustifiesLinks(
        t: LinkText, functions: seq<Func>, calls: seq<CallSite>, localTypes: TypeEnv, run: seq<LinkState>, n: nat,
        c: CallSite)
    requires LinkRun(t, functions, calls, localTypes, run) && n < |run| && UniqueCalls(calls) && c in calls
    requires c.id in run[n].links
    ensures JustifiedLink(t, functions, run, c, run[n].links[c.id])
  {
    if n > 0 {
      var before := run[n - 1];
      StepLinks(t, functions, before, run[n], c.id);
      if c.id in before.links && before.links[c.id] == run[n].links[c.id] {
        RunJustifiesLinks(t, functions, calls, localTypes, run, n - 1, c);
      } else {
        RunKeepsInvariant(t, functions, calls, localTypes, run, n - 1);
        assert before.pending[0] in before.pending;
        SameCall(calls, before.pending[0], c);
        assert LinksHere(t, functions, run[n - 1], c, run[n].links[c.id]);
      }
    }
  }

  lemma SameCall(calls: seq<CallSite>, a: CallSite, b: CallSite)
    requires UniqueCalls(calls) && a in calls && b in calls && a.id == b.id
    ensures a == b
  {
    var i :| 0 <= i < |calls| && calls[i] == a;
    var j :| 0 <= j < |calls| && calls[j] == b;
  }

  lemma EnvTransitive(a: TypeEnv, b: TypeEnv, c: TypeEnv)
    requires EnvLeq(a, b) && EnvLeq(b, c)
    ensures EnvLeq(a, c)
  {
    forall scope, variable ensures TypesAt(a, scope, variable) <= TypesAt(c, scope, variable) {
      assert TypesAt(a, scope, variable) <= TypesAt(b, scope, variable);
      assert TypesAt(b, scope, variable) <= TypesAt(c, scope, variable);
    }
  }

  /** A finished run: each link was made in it, types only grew, and every call without a link has
      no candidate or several under the final types. */
  lemma FinishedRun(
        t: LinkText, functions: seq<Func>, calls: seq<CallSite>, localTypes: TypeEnv, run: seq<LinkState>)
    requires LinkRun(t, functions, calls, localTypes, run) && Finished(t, functions, run) && UniqueCalls(calls)
    ensures var s := Latest(run);
            && EnvLeq(localTypes, s.env)
            && (forall c :: c in calls && c.id in s.links ==> JustifiedLink(t, functions, run, c, s.links[c.id]))
            && (forall c :: c in calls && c.id !in s.links ==> |Resolve(t, functions, c, s.env).functions| != 1)
  {
    RunKeepsInvariant(t, functions, calls, localTypes, run, |run| - 1);
    forall c | c in calls && c.id in Latest(run).links
      ensures JustifiedLink(t, functions, run, c, Latest(run).links[c.id])
    {
      RunJustifiesLinks(t, functions, calls, localTypes, run, |run| - 1, c);
    }
  }

  lemma {:induction false} RunGrows(
        t: LinkText, functions: seq<Func>, calls: seq<CallSite>, localTypes: TypeEnv, run: seq<LinkState>, i: nat,
        n: nat)
    requires LinkRun(t, functions, calls, localTypes, run) && i <= n < |run|
    ensures EnvLeq(run[i].env, run[n].env)
    decreases n
  {
    if i < n {
      RunGrows(t, functions, calls, localTypes, run, i, n - 1);
      RunKeepsInvariant(t, functions, calls, localTypes, run, n - 1);
      StepKeepsInvariant(t, functions, calls, run[n - 1], run[n]);
      EnvTransitive(run[i].env, run[n - 1].env, run[n].env);
    }
  }

  /** When a link still holds at the end: a link of a finished run is what its call resolves to
      under the final types exactly when it was not made through the receiver's type, or that
      receiver still has a single type. */
  lemma LinkStillHoldsIff(
        t: LinkText, functions: seq<Func>, calls: seq<CallSite>, localTypes: TypeEnv, run: seq<LinkState>, c: CallSite)
    requires LinkRun(t, functions, calls, localTypes, run) && Finished(t, functions, run) && UniqueCalls(calls)
    requires c in calls && c.id in Latest(run).links
    ensures var s := Latest(run);
            Resolve(t, functions, c, s.env).functions == [s.links[c.id].0] <==>
            (s.links[c.id].1.TypedReceiver? ==> |NormalizedTypes(t, TypesAt(s.env, c.scope, c.receiver))| == 1)
  {
    RunJustifiesLinks(t, functions, calls, localTypes, run, |run| - 1, c);
    var i :| 0 <= i < |run| && LinksHere(t, functions, run[i], c, Latest(run).links[c.id]);
    RunGrows(t, functions, calls, localTypes, run, i, |run| - 1);
    StillUniqueIff(t, functions, c, run[i].env, Latest(run).env, Latest(run).links[c.id].0);
  }

  /** One pass over the pending calls: it takes the run to the end of the round, which is shorter
      unless nothing was linked and nothing learned. */
  method Round(
        t: LinkText, functions: seq<Func>, ghost calls: seq<CallSite>, ghost localTypes: TypeEnv,
        pending: seq<CallSite>, before: TypeEnv, known: Links, ghost start: seq<LinkState>)
    returns (next: seq<CallSite>, env: TypeEnv, links: Links, progress: bool, ghost run: seq<LinkState>)
    requires LinkRun(t, functions, calls, localTypes, start)
    requires Latest(start) == LinkState(pending, [], |pending|, before, known, false)
    ensures LinkRun(t, functions, calls, localTypes, run)
    ensures Latest(run) == LinkState([], next, |pending|, env, links, progress)
    ensures |next| <= |pending| && (|next| == |pending| ==> !progress)
  {
    next, env, links, progress := [], before, known, false;
    run := start;
    for i := 0 to |pending|
      invariant LinkRun(t, functions, calls, localTypes, run)
      invariant Latest(run) == LinkState(pending[i..], next, |pending|, env, links, progress)
    {
      var call := pending[i];
      ghost var state := Latest(run);
      assert state.pending[0] == call && state.pending[1..] == pending[i + 1..];
      RunOneMore(t, functions, calls, localTypes, run, Visit(t, functions, state));
      run := run + [Visit(t, functions, state)];
      var candidates := Resolve(t, functions, call, env);
      if |candidates.functions| != 1 {
        next := next + [call];
        continue;
      }
      var target := candidates.functions[0];
      links := links[call.id := (target, candidates.resolution)];
      var grown := Propagate(t, env, call, target);
      progress := progress || grown != env;
      env := grown;
    }
    RunKeepsInvariant(t, functions, calls, localTypes, run, |run| - 1);
  }

  datatype Summary = Summary(resolved: nat, unresolved: nat, ambiguous: nat, callEdges: seq<Edge>)

  datatype Outcome = Resolved | Unresolved | Ambiguous

  /** What the final environment says of a call: linked, without candidate, or with several. */
  function OutcomeOf(t: LinkText, functions: seq<Func>, call: CallSite, env: TypeEnv, links: Links): Outcome {
    if call.id in links then Resolved
    else if |Resolve(t, functions, call, env).functions| >= 2 then Ambiguous
    else Unresolved
  }

  function CountOutcome(
        t: LinkText, functions: seq<Func>, calls: seq<CallSite>, env: TypeEnv, links: Links, outcome: Outcome): nat
    decreases |calls|
  {
    if calls == [] then 0
    else CountOutcome(t, functions, calls[..|calls| - 1], env, links, outcome) +
         (if OutcomeOf(t, functions, calls[|calls| - 1], env, links) == outcome then 1 else 0)
  }

  ghost predicate IsLink(calls: seq<CallSite>, links: Links, c: Id, f: Id) {
    exists call :: call in calls && call.id == c && c in links && links[c].0.id == f
  }

  /** link: the resolution loop, then one count per call.  The result is that of the finished run. */
  method Link(t: LinkText, functions: seq<Func>, calls: seq<CallSite>, localTypes: TypeEnv)
    returns (r: Summary, links: Links, env: TypeEnv, ghost run: seq<LinkState>)
    requires UniqueCalls(calls)
    ensures LinkRun(t, functions, calls, localTypes, run) && Finished(t, functions, run)
    ensures links == Latest(run).links && env == Latest(run).env
    ensures r.resolved + r.unresolved + r.ambiguous == |calls|
    ensures r.resolved == CountOutcome(t, functions, calls, env, links, Resolved)
    ensures r.unresolved == CountOutcome(t, functions, calls, env, links, Unresolved)
    ensures r.ambiguous == CountOutcome(t, functions, calls, env, links, Ambiguous)
    ensures forall c: Id, f: Id :: LinksTo(r.callEdges, c, f) <==> IsLink(calls, links, c, f)
  {
    links, env := map[], localTypes;
    var pending := calls;
    run := [StartOf(calls, localTypes)];
    while pending != []
      invariant LinkRun(t, functions, calls, localTypes, run) && Latest(run).env == env && Latest(run).links == links
      invariant pending != [] ==> Latest(run) == LinkState(pending, [], |pending|, env, links, false)
      invariant pending == [] ==> Finished(t, functions, run)
      decreases |pending|
    {
      var next, progress;
      next, env, links, progress, run := Round(t, functions, calls, localTypes, pending, env, links, run);
      if |next| == |pending| && !progress {
        break;
      }
      if next != [] {
        RunOneMore(t, functions, calls, localTypes, run, LinkState(next, [], |next|, env, links, false));
        run := run + [LinkState(next, [], |next|, env, links, false)];
      }
      pending := next;
    }
    FinishedRun(t, functions, calls, localTypes, run);
    r := Count(t, functions, calls, env, links);
  }

  ghost predicate LinksTo(edges: seq<Edge>, c: Id, f: Id) {
    exists e :: e in edges && e.source == c && e.target == f
  }

  /** The final loop over the calls. */
  method Count(t: LinkText, functions: seq<Func>, calls: seq<CallSite>, env: TypeEnv, links: Links) returns (r: Summary)
    requires forall c :: c in calls && c.id !in links ==> |Resolve(t, functions, c, env).functions| != 1
    ensures r.resolved + r.unresolved + r.ambiguous == |calls|
    ensures r.resolved == CountOutcome(t, functions, calls, env, links, Resolved)
    ensures r.unresolved == CountOutcome(t, functions, calls, env, links, Unresolved)
    ensures r.ambiguous == CountOutcome(t, functions, calls, env, links, Ambiguous)
    ensures forall c: Id, f: Id :: LinksTo(r.callEdges, c, f) <==> IsLink(calls, links, c, f)
  {
    r := Summary(0, 0, 0, []);
    for i := 0 to |calls|
      invariant r.resolved + r.unresolved + r.ambiguous == i
      invariant r.resolved == CountOutcome(t, functions, calls[..i], env, links, Resolved)
      invariant r.unresolved == CountOutcome(t, functions, calls[..i], env, links, Unresolved)
      invariant r.ambiguous == CountOutcome(t, functions, calls[..i], env, links, Ambiguous)
      invariant r.callEdges == LinkEdges(calls[..i], links)
    {
      var call := calls[i];
      assert call in calls;
      CountOneMore(t, functions, calls, env, links, i);
      if call.id in links {
        var target := links[call.id].0;
        r := r.(resolved := r.resolved + 1,
                callEdges := r.callEdges + [Edge(call.id, target.id, Calls, "")]);
        continue;
      }
      if Resolve(t, functions, call, env).functions != [] {
        r := r.(ambiguous := r.ambiguous + 1);
      } else {
        r := r.(unresolved := r.unresolved + 1);
      }
    }
    assert calls[..|calls|] == calls;
    LinkEdgesMeaning(calls, links);
  }

  lemma CountOneMore(t: LinkText, functions: seq<Func>, calls: seq<CallSite>, env: TypeEnv, links: Links, i: nat)
    requires i < |calls|
    ensures forall o :: CountOutcome(t, functions, calls[..i + 1], env, links, o) ==
                        CountOutcome(t, functions, calls[..i], env, links, o) +
                        (if OutcomeOf(t, functions, calls[i], env, links) == o then 1 else 0)
    ensures LinkEdges(calls[..i + 1], links) ==
            LinkEdges(calls[..i], links) +
            (if calls[i].id in links then [Edge(calls[i].id, links[calls[i].id].0.id, Calls, "")] else [])
  {
    assert calls[..i + 1][..i] == calls[..i] && calls[..i + 1][i] == calls[i];
  }

  function LinkEdges(calls: seq<CallSite>, links: Links): seq<Edge>
    decreases |calls|
  {
    if calls == [] then []
    else
      var call := calls[|calls| - 1];
      LinkEdges(calls[..|calls| - 1], links) +
        (if call.id in links then [Edge(call.id, links[call.id].0.id, Calls, "")] else [])
  }

  lemma {:induction false} LinkEdgesMeaning(calls: seq<CallSite>, links: Links)
    ensures forall c: Id, f: Id :: LinksTo(LinkEdges(calls, links), c, f) <==> IsLink(calls, links, c, f)
    decreases |calls|
  {
    if calls != [] {
      var rest, call := calls[..|calls| - 1], calls[|calls| - 1];
      LinkEdgesMeaning(rest, links);
      assert calls == rest + [call];
      LinksOneMore(rest, links, call, LinkEdges(rest, links));
    }
  }

  lemma LinksOneMore(calls: seq<CallSite>, links: Links, call: CallSite, edges: seq<Edge>)
    ensures forall c: Id, f: Id :: IsLink(calls + [call], links, c, f) <==>
              IsLink(calls, links, c, f) || (call.id == c && c in links && links[c].0.id == f)
    ensures forall e: Edge, c: Id, f: Id :: LinksTo(edges + [e], c, f) <==>
            LinksTo(edges, c, f) || (e.source == c && e.target == f)
  {
    forall c: Id, f: Id | call.id == c && c in links && links[c].0.id == f ensures IsLink(calls + [call], links, c, f) {
      assert call in calls + [call];
    }
    forall e: Edge, c: Id, f: Id ensures LinksTo(edges + [e], c, f) <==>
      LinksTo(edges, c, f) || (e.source == c && e.target == f) {
      assert e in edges + [e];
    }
  }

  // ---------- counterexample to stability ----------

  const CLOSE := Func(1, "go", 1, "A.Close", "", "Close", "A", [])
  const CLOSE_CALL := CallSite(2, "go", 9, "x.Close", "Close", true, "x", [])
  const MAKE_CALL := CallSite(3, "go", 9, "makeB", "makeB", false, "", ["x"])
  const MAKE := Func(4, "go", 4, "makeB", "", "makeB", "", ["B"])

  /** Spelling rules of an IR without namespaces, lexical receivers or type decoration. */
  ghost predicate Plain(t: LinkText) {
    && (forall s :: t.normalizeType(s) == s && t.typeName(s) == s)
    && t.methodOf("A", "Close") == "A.Close"
    && (forall c :: t.callerNamespace(c) == "" && t.contextualTarget(c) == "")
  }

  const KNOWN: TypeEnv := map[(9, "x") := {"A"}]

  /** The lookups in the table of the two functions. */
  lemma TwoFunctions(t: LinkText, functions: seq<Func>)
    requires Plain(t) && functions == [CLOSE, MAKE]
    ensures Exact(functions, "go", "x.Close") == [] && Exact(functions, "go", "") == []
    ensures Exact(functions, "go", "A.Close") == [CLOSE] && Exact(functions, "go", "makeB") == [MAKE]
    ensures Methods(t, functions, "go", "A", "Close") == [CLOSE]
  {
    assert "x.Close"[0] != "A.Close"[0] && "x.Close"[0] != "makeB"[0] && "A.Close"[0] != "makeB"[0];
    FilterTwo((f: Func) => f.language == "go" && f.qualified == "x.Close", functions);
    FilterTwo((f: Func) => f.language == "go" && f.qualified == "", functions);
    FilterTwo((f: Func) => f.language == "go" && f.qualified == "A.Close", functions);
    FilterTwo((f: Func) => f.language == "go" && f.qualified == "makeB", functions);
    FilterTwo((f: Func) => f.language == "go" && t.normalizeType(f.receiverType) != "" &&
                           t.typeName(t.normalizeType(f.receiverType)) == "A" && f.simple == "Close", functions);
  }

  lemma CloseIsTheCandidate(t: LinkText, functions: seq<Func>)
    requires Plain(t) && functions == [CLOSE, MAKE]
    ensures CandidatesOfType(t, functions, CLOSE_CALL, "A") == [CLOSE]
  {
    TwoFunctions(t, functions);
    var methods := Methods(t, functions, "go", "A", "Close");
    var scoped := Filter((f: Func) => f.namespace == t.callerNamespace(CLOSE_CALL), methods);
    assert scoped == [CLOSE];
    assert ([CLOSE] + [CLOSE])[1..] == [CLOSE];
    assert Filter((f: Func) => f.id != CLOSE.id, [CLOSE]) == [];
    assert Dedupe([CLOSE] + [CLOSE]) == [CLOSE];
    assert Sort(FuncLeq, [CLOSE]) == [CLOSE];
  }

  lemma CloseResolves(t: LinkText, functions: seq<Func>, env: TypeEnv)
    requires Plain(t) && functions == [CLOSE, MAKE]
    ensures NormalizedTypes(t, TypesAt(env, 9, "x")) == {"A"} ==>
              Resolve(t, functions, CLOSE_CALL, env) == Candidates([CLOSE], TypedReceiver)
    ensures |NormalizedTypes(t, TypesAt(env, 9, "x"))| != 1 ==> Resolve(t, functions, CLOSE_CALL, env).functions == []
  {
    TwoFunctions(t, functions);
    CloseIsTheCandidate(t, functions);
  }

  lemma TypesOfX(t: LinkText, after: TypeEnv)
    requires Plain(t) && after == AddType(KNOWN, 9, "x", "B")
    ensures NormalizedTypes(t, TypesAt(KNOWN, 9, "x")) == {"A"} && |NormalizedTypes(t, TypesAt(after, 9, "x"))| == 2
  {
    assert "A"[0] != "B"[0];
    assert NormalizedTypes(t, TypesAt(after, 9, "x")) == {"A", "B"};
  }

  lemma MakeResolves(t: LinkText, functions: seq<Func>, env: TypeEnv)
    requires Plain(t) && functions == [CLOSE, MAKE]
    ensures Resolve(t, functions, MAKE_CALL, env) == Candidates([MAKE], Qualified)
    ensures Propagate(t, env, MAKE_CALL, MAKE) == AddType(env, 9, "x", "B")
  {
    TwoFunctions(t, functions);
    assert ["x"][1..] == [] && t.normalizeType("B") == "B";
  }

  lemma CloseVisit(t: LinkText, functions: seq<Func>, s: LinkState)
    requires Plain(t) && functions == [CLOSE, MAKE] && s.pending != [] && s.pending[0] == CLOSE_CALL && s.env == KNOWN
    ensures Visit(t, functions, s) ==
            s.(pending := s.pending[1..], links := s.links[CLOSE_CALL.id := (CLOSE, TypedReceiver)])
  {
    TypesOfX(t, AddType(KNOWN, 9, "x", "B"));
    CloseResolves(t, functions, KNOWN);
  }

  lemma MakeVisit(t: LinkText, functions: seq<Func>, s: LinkState)
    requires Plain(t) && functions == [CLOSE, MAKE] && s.pending != [] && s.pending[0] == MAKE_CALL
    ensures var grown := AddType(s.env, 9, "x", "B");
            Visit(t, functions, s) ==
            s.(pending := s.pending[1..], env := grown, progress := s.progress || grown != s.env,
               links := s.links[MAKE_CALL.id := (MAKE, Qualified)])
  {
    MakeResolves(t, functions, s.env);
  }

  /** The run of the linker on x.Close(); x = makeB(), with x known to be an A. */
  lemma LosingRun(t: LinkText, functions: seq<Func>, calls: seq<CallSite>) returns (run: seq<LinkState>)
    requires Plain(t) && functions == [CLOSE, MAKE] && calls == [CLOSE_CALL, MAKE_CALL]
    ensures LinkRun(t, functions, calls, KNOWN, run) && Finished(t, functions, run)
    ensures CLOSE_CALL.id in Latest(run).links && Latest(run).links[CLOSE_CALL.id] == (CLOSE, TypedReceiver)
    ensures Latest(run).env == AddType(KNOWN, 9, "x", "B")
  {
    var start := StartOf(calls, KNOWN);
    CloseVisit(t, functions, start);
    var first := Visit(t, functions, start);
    assert first.pending == [MAKE_CALL];
    MakeVisit(t, functions, first);
    var second := Visit(t, functions, first);
    assert second.pending == [] && second.next == [];
    run := [start, first, second];
  }

  /** x.Close() is linked while x is only known to be an A.  Linking x = makeB() then adds the
      type B: in every finished run of the linker on this program the link stays, although under
      the final types the call has no candidate. */
  lemma TypedLinkMayLoseItsType(t: LinkText, functions: seq<Func>, calls: seq<CallSite>, run: seq<LinkState>)
    requires Plain(t) && functions == [CLOSE, MAKE] && calls == [CLOSE_CALL, MAKE_CALL]
    requires LinkRun(t, functions, calls, KNOWN, run) && Finished(t, functions, run)
    ensures CLOSE_CALL.id in Latest(run).links && Latest(run).links[CLOSE_CALL.id] == (CLOSE, TypedReceiver)
    ensures Resolve(t, functions, CLOSE_CALL, Latest(run).env).functions == []
  {
    var other := LosingRun(t, functions, calls);
    OneOutcome(t, functions, calls, KNOWN, run, other);
    TypesOfX(t, Latest(run).env);
    CloseResolves(t, functions, Latest(run).env);
  }

  // ---------- apply ----------

  /** Appends the items whose key is not known yet (edge keys and fact ids stand for themselves). */
  method Apply<K(==, !new)>(existing: seq<K>, inferred: seq<K>) returns (merged: seq<K>)
    ensures merged == Merge(existing, inferred)
  {
    merged := existing;
    var known := SetOf(existing);
    for i := 0 to |inferred|
      invariant known == SetOf(merged)
      invariant merged == Merge(existing, inferred[..i])
    {
      assert inferred[..i + 1][..i] == inferred[..i];
      if inferred[i] !in known {
        merged := merged + [inferred[i]];
        known := known + {inferred[i]};
      }
    }
    assert inferred[..|inferred|] == inferred;
  }

  /** Applying the same link result again changes nothing. */
  lemma ApplyIsIdempotent<K(!new)>(existing: seq<K>, inferred: seq<K>)
    ensures Merge(Merge(existing, inferred), inferred) == Merge(existing, inferred)
  {
    MergeMeaning(existing, inferred);
    MergeKnown(Merge(existing, inferred), inferred);
  }
}
