/** What links a call to a function, in terms of the functions of the program (SemanticLinker,
    smartbench/analysis/interprocedural.py). */
module LinkEvidence {
  import opened Sequences
  import opened Ir
  import opened Linker

  /** The kinds of evidence that a call means a function. */
  datatype Evidence = ByName | InNamespace | ByContext | ByReceiverType | BySimpleName

  /** A method of a normalized type: by its full name, or by the type's bare name, where methods in the
      caller's namespace hide the others. */
  ghost predicate IsMethod(t: LinkText, functions: seq<Func>, call: CallSite, normalized: string, f: Func) {
    || f.qualified == t.methodOf(normalized, call.simple)
    || (HasReceiver(t, call, normalized, f) &&
        (f.namespace == t.callerNamespace(call) ||
         forall h :: h in functions && h.language == call.language && HasReceiver(t, call, normalized, h) ==>
           h.namespace != t.callerNamespace(call)))
  }

  predicate HasReceiver(t: LinkText, call: CallSite, normalized: string, f: Func) {
    && f.simple == call.simple && t.normalizeType(f.receiverType) != ""
    && t.typeName(t.normalizeType(f.receiverType)) == t.typeName(normalized)
  }

  /** There is this kind of evidence that the call means f. */
  ghost predicate Supports(t: LinkText, functions: seq<Func>, call: CallSite, env: TypeEnv, e: Evidence, f: Func) {
    && f in functions && f.language == call.language
    && match e
       case ByName => f.qualified == call.target
       case InNamespace =>
         !call.dotted && t.callerNamespace(call) != "" && f.namespace == t.callerNamespace(call) &&
           f.simple == call.simple
       case ByContext => t.contextualTarget(call) != "" && f.qualified == t.contextualTarget(call)
       case ByReceiverType =>
         call.dotted && exists x :: NormalizedTypes(t, TypesAt(env, call.scope, call.receiver)) == {x} &&
                                    IsMethod(t, functions, call, x, f)
       case BySimpleName => !call.dotted && f.simple == call.simple
  }

  ghost predicate Some_(t: LinkText, functions: seq<Func>, call: CallSite, env: TypeEnv, e: Evidence) {
    exists h :: Supports(t, functions, call, env, e, h)
  }

  ghost predicate Only(t: LinkText, functions: seq<Func>, call: CallSite, env: TypeEnv, e: Evidence, f: Func) {
    Supports(t, functions, call, env, e, f) &&
    forall h :: Supports(t, functions, call, env, e, h) ==> h == f
  }

  /** The evidence decides for f: nothing stronger speaks for any function, and it speaks for f alone.
      Evidence by namespace that speaks for several functions gives way. */
  ghost predicate Decides(t: LinkText, functions: seq<Func>, call: CallSite, env: TypeEnv, e: Evidence, f: Func) {
    && Only(t, functions, call, env, e, f)
    && (e != ByName ==> !Some_(t, functions, call, env, ByName))
    && (e != ByName && e != InNamespace ==> !exists h :: Only(t, functions, call, env, InNamespace, h))
    && ((e == ByReceiverType || e == BySimpleName) ==> !Some_(t, functions, call, env, ByContext))
  }

  ghost predicate UniqueFunctions(functions: seq<Func>) {
    forall i, j :: 0 <= i < j < |functions| ==> functions[i].id != functions[j].id
  }

  // ---------- lists and evidence ----------

  lemma {:induction false} FilterOnly(p: Func -> bool, s: seq<Func>, f: Func)
    requires UniqueFunctions(s)
    ensures Filter(p, s) == [f] <==> f in s && p(f) && forall h :: h in s && p(h) ==> h == f
    decreases |s|
  {
    if s != [] {
      assert forall h :: h in s <==> h == s[0] || h in s[1..];
      FilterOnly(p, s[1..], f);
      assert s[0] !in s[1..];
      if p(s[0]) {
        var rest := Filter(p, s[1..]);
        if rest == [] {
          assert Filter(p, s) == [s[0]];
        } else {
          assert rest[0] in rest;
          assert |Filter(p, s)| > 1;
        }
      }
    }
  }

  lemma FilterSome(p: Func -> bool, s: seq<Func>)
    ensures Filter(p, s) != [] <==> exists h :: h in s && p(h)
  {
    if Filter(p, s) != [] { assert Filter(p, s)[0] in Filter(p, s); }
  }

  lemma {:induction false} DedupeKeeps(s: seq<Func>)
    requires forall f, h :: f in s && h in s && f.id == h.id ==> f == h
    ensures forall f :: f in Dedupe(s) <==> f in s
    ensures UniqueFunctions(Dedupe(s))
    decreases |s|
  {
    if s != [] {
      var rest := Filter((f: Func) => f.id != s[0].id, s[1..]);
      DedupeKeeps(rest);
      forall f ensures f in Dedupe(s) <==> f in s {
        assert f in s <==> f == s[0] || f in s[1..];
      }
      HeadIsUnique(s[0], Dedupe(rest));
    }
  }

  lemma HeadIsUnique(f: Func, rest: seq<Func>)
    requires UniqueFunctions(rest) && forall h :: h in rest ==> h.id != f.id
    ensures UniqueFunctions([f] + rest)
  {
    var all := [f] + rest;
    forall i, j | 0 <= i < j < |all| ensures all[i].id != all[j].id {
      assert all[j] == rest[j - 1] && all[j] in rest;
      if i > 0 { assert all[i] == rest[i - 1]; }
    }
  }

  lemma SortedOnly(s: seq<Func>, f: Func)
    requires forall g, h :: g in s && h in s && g.id == h.id ==> g == h
    ensures Sort(FuncLeq, Dedupe(s)) == [f] <==> f in s && forall h :: h in s ==> h == f
    ensures Sort(FuncLeq, Dedupe(s)) == [] <==> s == []
  {
    DedupeKeeps(s);
    var d := Dedupe(s);
    SortKeepsElements(FuncLeq, d);
    assert |Sort(FuncLeq, d)| == |d|;
    if d != [] { assert d[0] in d; }
    if |d| > 1 { assert d[1] in d && d[0] != d[1]; }
  }

  lemma NameLists(t: LinkText, functions: seq<Func>, call: CallSite, env: TypeEnv, f: Func)
    requires UniqueFunctions(functions)
    ensures Exact(functions, call.language, call.target) == [f] <==> Only(t, functions, call, env, ByName, f)
    ensures Exact(functions, call.language, call.target) != [] <==> Some_(t, functions, call, env, ByName)
  {
    var p := (h: Func) => h.language == call.language && h.qualified == call.target;
    FilterOnly(p, functions, f);
    FilterSome(p, functions);
    assert forall h :: Supports(t, functions, call, env, ByName, h) <==> h in functions && p(h);
  }

  lemma NamespaceLists(t: LinkText, functions: seq<Func>, call: CallSite, env: TypeEnv, f: Func)
    requires UniqueFunctions(functions) && !call.dotted && t.callerNamespace(call) != ""
    ensures ByNamespace(functions, call.language, t.callerNamespace(call), call.simple) == [f] <==>
            Only(t, functions, call, env, InNamespace, f)
  {
    var namespace := t.callerNamespace(call);
    var p := (h: Func) => h.language == call.language && h.namespace != "" && h.namespace == namespace &&
      h.simple == call.simple;
    FilterOnly(p, functions, f);
    assert ByNamespace(functions, call.language, namespace, call.simple) == Filter(p, functions);
    assert forall h :: Supports(t, functions, call, env, InNamespace, h) <==> h in functions && p(h);
  }

  lemma ContextLists(t: LinkText, functions: seq<Func>, call: CallSite, env: TypeEnv, f: Func)
    requires UniqueFunctions(functions) && t.contextualTarget(call) != ""
    ensures Exact(functions, call.language, t.contextualTarget(call)) == [f] <==>
            Only(t, functions, call, env, ByContext, f)
    ensures Exact(functions, call.language, t.contextualTarget(call)) != [] <==>
            Some_(t, functions, call, env, ByContext)
  {
    var name := t.contextualTarget(call);
    var p := (h: Func) => h.language == call.language && h.qualified == name;
    FilterOnly(p, functions, f);
    FilterSome(p, functions);
    assert forall h :: Supports(t, functions, call, env, ByContext, h) <==> h in functions && p(h);
  }

  lemma SimpleLists(t: LinkText, functions: seq<Func>, call: CallSite, env: TypeEnv, f: Func)
    requires UniqueFunctions(functions) && !call.dotted
    ensures BySimple(functions, call.language, call.simple) == [f] <==> Only(t, functions, call, env, BySimpleName, f)
  {
    var p := (h: Func) => h.language == call.language && h.simple == call.simple;
    FilterOnly(p, functions, f);
    assert forall h :: Supports(t, functions, call, env, BySimpleName, h) <==> h in functions && p(h);
  }

  lemma SameIdSame(functions: seq<Func>, f: Func, h: Func)
    requires UniqueFunctions(functions) && f in functions && h in functions && f.id == h.id
    ensures f == h
  {
    var i :| 0 <= i < |functions| && functions[i] == f;
    var j :| 0 <= j < |functions| && functions[j] == h;
  }

  /** The candidates collected for a type are its methods. */
  lemma TypeMembers(t: LinkText, functions: seq<Func>, call: CallSite, normalized: string, collected: seq<Func>)
    requires var exact := Exact(functions, call.language, t.methodOf(normalized, call.simple));
             var global_ := Methods(t, functions, call.language, t.typeName(normalized), call.simple);
             var scoped := Filter((f: Func) => f.namespace == t.callerNamespace(call), global_);
             collected == exact + (if scoped != [] then scoped else global_)
    ensures forall f :: f in collected <==>
              f in functions && f.language == call.language && IsMethod(t, functions, call, normalized, f)
  {
    var global_ := Methods(t, functions, call.language, t.typeName(normalized), call.simple);
    var scoped := Filter((f: Func) => f.namespace == t.callerNamespace(call), global_);
    assert forall f :: f in global_ <==>
      f in functions && f.language == call.language && HasReceiver(t, call, normalized, f);
    assert scoped != [] <==> exists h :: h in global_ && h.namespace == t.callerNamespace(call) by {
      if scoped != [] { assert scoped[0] in scoped; }
    }
  }

  lemma TypeLists(t: LinkText, functions: seq<Func>, call: CallSite, env: TypeEnv, f: Func)
    requires UniqueFunctions(functions) && call.dotted
    ensures TypedCandidates(t, functions, call, env) == [f] <==> Only(t, functions, call, env, ByReceiverType, f)
    ensures TypedCandidates(t, functions, call, env) != [] <==> Some_(t, functions, call, env, ByReceiverType)
  {
    var types := NormalizedTypes(t, TypesAt(env, call.scope, call.receiver));
    if |types| == 1 {
      SingletonSet(types);
      var x :| types == {x};
      OneType(t, functions, call, env, x, f);
    } else {
      assert forall x: string :: types != {x};
    }
  }

  lemma TypedIs(t: LinkText, functions: seq<Func>, call: CallSite, env: TypeEnv, x: string)
    requires NormalizedTypes(t, TypesAt(env, call.scope, call.receiver)) == {x}
    ensures TypedCandidates(t, functions, call, env) == CandidatesOfType(t, functions, call, x)
    ensures forall y :: NormalizedTypes(t, TypesAt(env, call.scope, call.receiver)) == {y} ==> y == x
  {
    forall y | {x} == {y} ensures y == x {
      assert y in {x};
    }
  }

  lemma TypeSupports(t: LinkText, functions: seq<Func>, call: CallSite, env: TypeEnv, x: string, h: Func)
    requires call.dotted && NormalizedTypes(t, TypesAt(env, call.scope, call.receiver)) == {x}
    ensures Supports(t, functions, call, env, ByReceiverType, h) <==>
            h in functions && h.language == call.language && IsMethod(t, functions, call, x, h)
  {
    TypedIs(t, functions, call, env, x);
  }

  lemma OneType(t: LinkText, functions: seq<Func>, call: CallSite, env: TypeEnv, x: string, f: Func)
    requires UniqueFunctions(functions) && call.dotted
    requires NormalizedTypes(t, TypesAt(env, call.scope, call.receiver)) == {x}
    ensures TypedCandidates(t, functions, call, env) == [f] <==> Only(t, functions, call, env, ByReceiverType, f)
    ensures TypedCandidates(t, functions, call, env) != [] <==> Some_(t, functions, call, env, ByReceiverType)
  {
    TypedIs(t, functions, call, env, x);
    var collected := CollectedFor(t, functions, call, x, f);
    forall h ensures Supports(t, functions, call, env, ByReceiverType, h) <==> h in collected {
      TypeSupports(t, functions, call, env, x, h);
    }
    if collected != [] { assert collected[0] in collected; }
  }

  lemma CollectedFor(t: LinkText, functions: seq<Func>, call: CallSite, x: string, f: Func)
    returns (collected: seq<Func>)
    requires UniqueFunctions(functions)
    ensures forall h :: h in collected <==>
              h in functions && h.language == call.language && IsMethod(t, functions, call, x, h)
    ensures CandidatesOfType(t, functions, call, x) == [f] <==> f in collected && forall h :: h in collected ==> h == f
    ensures CandidatesOfType(t, functions, call, x) == [] <==> collected == []
  {
    var exact := Exact(functions, call.language, t.methodOf(x, call.simple));
    var global_ := Methods(t, functions, call.language, t.typeName(x), call.simple);
    var scoped := Filter((h: Func) => h.namespace == t.callerNamespace(call), global_);
    collected := exact + (if scoped != [] then scoped else global_);
    TypeMembers(t, functions, call, x, collected);
    forall g, h | g in collected && h in collected && g.id == h.id ensures g == h { SameIdSame(functions, g, h); }
    SortedOnly(collected, f);
  }

  /** Several functions of the caller's namespace, or none, decide nothing. */
  lemma NamespaceDecides(t: LinkText, functions: seq<Func>, call: CallSite, env: TypeEnv)
    requires UniqueFunctions(functions)
    ensures (exists h :: Only(t, functions, call, env, InNamespace, h)) <==>
            t.callerNamespace(call) != "" && !call.dotted &&
            |ByNamespace(functions, call.language, t.callerNamespace(call), call.simple)| == 1
  {
    if t.callerNamespace(call) != "" && !call.dotted {
      var found := ByNamespace(functions, call.language, t.callerNamespace(call), call.simple);
      if |found| == 1 {
        assert found == [found[0]];
        NamespaceLists(t, functions, call, env, found[0]);
      }
      if h :| Only(t, functions, call, env, InNamespace, h) {
        NamespaceLists(t, functions, call, env, h);
      }
    }
  }

  /** A call is linked to f if and only if it has a target and some evidence decides for f. */
  lemma LinksIff(t: LinkText, functions: seq<Func>, call: CallSite, env: TypeEnv, f: Func)
    requires UniqueFunctions(functions)
    ensures Resolve(t, functions, call, env).functions == [f] <==>
            call.target != "" && exists e :: Decides(t, functions, call, env, e, f)
  {
    NameLists(t, functions, call, env, f);
    NamespaceDecides(t, functions, call, env);
    if t.callerNamespace(call) != "" && !call.dotted { NamespaceLists(t, functions, call, env, f); }
    if t.contextualTarget(call) != "" { ContextLists(t, functions, call, env, f); }
    if call.dotted { TypeLists(t, functions, call, env, f); } else { SimpleLists(t, functions, call, env, f); }
    DecidesByRank(t, functions, call, env, f);
  }

  /** Which kind of evidence can decide at all. */
  lemma DecidesByRank(t: LinkText, functions: seq<Func>, call: CallSite, env: TypeEnv, f: Func)
    ensures (exists e :: Decides(t, functions, call, env, e, f)) <==>
            if Some_(t, functions, call, env, ByName) then Only(t, functions, call, env, ByName, f)
            else if exists h ::
              Only(t, functions, call, env, InNamespace, h) then Only(t, functions, call, env, InNamespace, f)
            else if Some_(t, functions, call, env, ByContext) then Only(t, functions, call, env, ByContext, f)
            else if call.dotted then Only(t, functions, call, env, ByReceiverType, f)
            else Only(t, functions, call, env, BySimpleName, f)
  {
    var e := if Some_(t, functions, call, env, ByName) then ByName
             else if exists h :: Only(t, functions, call, env, InNamespace, h) then InNamespace
             else if Some_(t, functions, call, env, ByContext) then ByContext
             else if call.dotted then ByReceiverType else BySimpleName;
    assert Only(t, functions, call, env, e, f) ==> Decides(t, functions, call, env, e, f);
    forall other | Decides(t, functions, call, env, other, f) ensures Only(t, functions, call, env, e, f) {
      assert other == e;
    }
  }

  /** So a dotted call is linked only by its full name, its context, or the single type of its receiver. */
  lemma DottedLinks(t: LinkText, functions: seq<Func>, call: CallSite, env: TypeEnv, f: Func)
    requires UniqueFunctions(functions) && call.dotted && Resolve(t, functions, call, env).functions == [f]
    ensures f in functions && f.language == call.language
    ensures || f.qualified == call.target
            || (t.contextualTarget(call) != "" && f.qualified == t.contextualTarget(call))
            || exists x :: NormalizedTypes(t, TypesAt(env, call.scope, call.receiver)) == {x} &&
                           IsMethod(t, functions, call, x, f)
  {
    LinksIff(t, functions, call, env, f);
  }

  /** No other function has the simple name, or none other in the namespace of the caller and of f. */
  ghost predicate OnlyOfItsName(t: LinkText, functions: seq<Func>, call: CallSite, f: Func) {
    forall h ::
      (&& h in functions && h.language == call.language && h.simple == f.simple
       && (f.namespace == t.callerNamespace(call) ==> h.namespace == f.namespace))
      ==> h == f
  }

  /** And an undotted one only by its full name, its context, or as the only function of its simple name, in
      the caller's namespace or anywhere. */
  lemma UndottedLinks(t: LinkText, functions: seq<Func>, call: CallSite, env: TypeEnv, f: Func)
    requires UniqueFunctions(functions) && !call.dotted && Resolve(t, functions, call, env).functions == [f]
    ensures f in functions && f.language == call.language
    ensures || f.qualified == call.target
            || (t.contextualTarget(call) != "" && f.qualified == t.contextualTarget(call))
            || (f.simple == call.simple && OnlyOfItsName(t, functions, call, f))
  {
    LinksIff(t, functions, call, env, f);
    var e :| Decides(t, functions, call, env, e, f);
    if e == InNamespace {
      forall h | h in functions && h.language == call.language && h.simple == call.simple && h.namespace == f.namespace
        ensures h == f
      {
        assert Supports(t, functions, call, env, InNamespace, h);
      }
    } else if e == BySimpleName {
      forall h | h in functions && h.language == call.language && h.simple == call.simple ensures h == f {
        assert Supports(t, functions, call, env, BySimpleName, h);
      }
    }
  }

  /** Every link of a finished run rests on evidence that decided for it, under types known in the run. */
  lemma LinksHaveEvidence(
        t: LinkText, functions: seq<Func>, calls: seq<CallSite>, localTypes: TypeEnv, run: seq<LinkState>, c: CallSite)
    returns (i: nat, e: Evidence)
    requires LinkRun(t, functions, calls, localTypes, run) && Finished(t, functions, run)
    requires UniqueCalls(calls) && UniqueFunctions(functions) && c in calls && c.id in Latest(run).links
    ensures i < |run| && c.target != "" && Decides(t, functions, c, run[i].env, e, Latest(run).links[c.id].0)
  {
    FinishedRun(t, functions, calls, localTypes, run);
    i :| 0 <= i < |run| && LinksHere(t, functions, run[i], c, Latest(run).links[c.id]);
    LinksIff(t, functions, c, run[i].env, Latest(run).links[c.id].0);
    e :| Decides(t, functions, c, run[i].env, e, Latest(run).links[c.id].0);
  }

  // ---------- types ----------

  /** The call's result variable v gets the callee's return type at its place. */
  ghost predicate Returns(t: LinkText, call: CallSite, target: Func, v: string, type_: string) {
    exists k :: 0 <= k < |call.resultTargets| && k < |target.returnTypes| &&
                call.resultTargets[k] == v && target.returnTypes[k] == type_ && v != "" && t.normalizeType(type_) != ""
  }

  /** Linking adds exactly the return types at their places, in the caller's scope; a single return type is
      not spread over several variables. */
  lemma PropagateMeaning(t: LinkText, env: TypeEnv, call: CallSite, target: Func, scope: Id, v: string, type_: string)
    ensures type_ in TypesAt(Propagate(t, env, call, target), scope, v) <==>
            || type_ in TypesAt(env, scope, v)
            || (scope == call.scope && Returns(t, call, target, v, type_) &&
                (|target.returnTypes| != 1 || |call.resultTargets| == 1))
  {
    ZipMeaning(t, env, call.scope, call.resultTargets, target.returnTypes, scope, v, type_);
  }

  ghost predicate Zipped(t: LinkText, variables: seq<string>, types: seq<string>, v: string, type_: string) {
    exists k :: 0 <= k < |variables| && k < |types| && variables[k] == v && types[k] == type_ && v != "" &&
                t.normalizeType(type_) != ""
  }

  lemma {:induction false} ZipMeaning(
        t: LinkText, env: TypeEnv, scope: Id, variables: seq<string>, types: seq<string>, s: Id, v: string,
        type_: string)
    ensures type_ in TypesAt(AddZipped(t, env, scope, variables, types), s, v) <==>
            type_ in TypesAt(env, s, v) || (s == scope && Zipped(t, variables, types, v, type_))
    decreases |variables|
  {
    if variables != [] && types != [] {
      var next := if variables[0] == "" || t.normalizeType(types[0]) == "" then env
                  else AddType(env, scope, variables[0], types[0]);
      ZipMeaning(t, next, scope, variables[1..], types[1..], s, v, type_);
      if Zipped(t, variables[1..], types[1..], v, type_) {
        var k :| 0 <= k < |variables[1..]| && k < |types[1..]| && variables[1..][k] == v && types[1..][k] == type_;
        assert variables[k + 1] == v && types[k + 1] == type_;
      }
      if Zipped(t, variables, types, v, type_) {
        var k :| 0 <= k < |variables| && k < |types| && variables[k] == v && types[k] == type_;
        if k > 0 { assert variables[1..][k - 1] == v && types[1..][k - 1] == type_; }
      }
    }
  }
}
