/** Control-flow graph queries (smartbench/analysis/control_flow.py).

    Graph is the meaning of a ControlFlowGraph object: its operations and its typed arcs.
    The class keeps the source's fields, and every query is proved against walks in Graph. */
module ControlFlow {
  import opened Sequences
  import opened Walks
  import opened Ir

  datatype Arc = Arc(source: Id, target: Id, kind: EdgeKind)

  datatype Graph = Graph(ops: map<Id, Op>, arcs: set<Arc>)

  /** Edges that become arcs: control-flow kinds between known operations of one scope. */
  predicate Admitted(ops: map<Id, Op>, e: Edge) {
    && IsControlFlow(e.kind)
    && e.source in ops && e.target in ops
    && ops[e.source].scope == ops[e.target].scope
  }

  function ArcOf(e: Edge): Arc {
    Arc(e.source, e.target, e.kind)
  }

  function GraphOf(operations: seq<Op>, edges: seq<Edge>): (g: Graph)
    ensures WellFormed(g)
  {
    var ops := OpsById(operations);
    Graph(ops, set e | e in edges && Admitted(ops, e) :: ArcOf(e))
  }

  ghost predicate WellFormed(g: Graph) {
    && (forall id :: id in g.ops ==> g.ops[id].id == id)
    && (forall a :: a in g.arcs ==>
          a.source in g.ops && a.target in g.ops && g.ops[a.source].scope == g.ops[a.target].scope)
  }

  // ---------- what the queries mean ----------

  ghost function Rel(g: Graph): Relation {
    set a | a in g.arcs :: (a.source, a.target)
  }

  ghost function LoopFreeRel(g: Graph): Relation {
    set a | a in g.arcs && !a.kind.LoopBack? :: (a.source, a.target)
  }

  ghost function AvoidingRel(g: Graph, d: Id): Relation {
    set a | a in g.arcs && a.target != d :: (a.source, a.target)
  }

  predicate SameScope(g: Graph, a: Id, b: Id) {
    a in g.ops && b in g.ops && g.ops[a].scope == g.ops[b].scope
  }

  ghost predicate EveryWalkVisits(g: Graph, s: Id, d: Id, t: Id) {
    forall p :: WalkFromTo(Rel(g), p, s, t) && |p| > 1 ==> d in p
  }

  /** What dominates_between decides. */
  ghost predicate DominatesBetweenSpec(g: Graph, s: Id, d: Id, t: Id) {
    && SameScope(g, s, d) && SameScope(g, s, t)
    && (s == d || (if d == t then Reach(Rel(g), s, t) else EveryWalkVisits(g, s, d, t)))
  }

  ghost predicate HasOutcome(g: Graph, branch: Id, kind: EdgeKind) {
    exists a :: a in g.arcs && a.source == branch && a.kind == kind
  }

  ghost predicate OutcomeReaches(g: Graph, branch: Id, kind: EdgeKind, t: Id) {
    exists a :: a in g.arcs && a.source == branch && a.kind == kind && ReachStar(LoopFreeRel(g), a.target, t)
  }

  /** What branch_controls decides: both outcomes exist, exactly one leads to the operation. */
  ghost predicate BranchControlsSpec(g: Graph, branch: Id, t: Id) {
    && HasOutcome(g, branch, TrueBranch) && HasOutcome(g, branch, FalseBranch)
    && OutcomeReaches(g, branch, TrueBranch, t) != OutcomeReaches(g, branch, FalseBranch, t)
  }

  function ScopeNodes(g: Graph, scope: Id): set<Id> {
    set id | id in g.ops && g.ops[id].scope == scope
  }

  /** Operations without a predecessor; the least id when every operation has one. */
  ghost function Entries(g: Graph, scope: Id): (entries: set<Id>)
    ensures entries <= ScopeNodes(g, scope)
  {
    var nodes := ScopeNodes(g, scope);
    var sources := set n | n in nodes && forall m :: (m, n) !in Rel(g);
    if sources != {} then sources else if nodes != {} then {MinOf(nodes)} else {}
  }

  /** Every walk from a scope entry to n contains d (vacuous when no entry reaches n). */
  ghost predicate EntryDominates(g: Graph, entries: set<Id>, d: Id, n: Id) {
    forall p :: IsWalk(Rel(g), p) && p[0] in entries && p[|p| - 1] == n ==> d in p
  }

  ghost function DominatorMap(g: Graph, scope: Id): map<Id, set<Id>> {
    var nodes := ScopeNodes(g, scope);
    map n | n in nodes :: set d | d in nodes && EntryDominates(g, Entries(g, scope), d, n)
  }

  ghost predicate DominatesSpec(g: Graph, d: Id, n: Id) {
    SameScope(g, d, n) && EntryDominates(g, Entries(g, g.ops[n].scope), d, n)
  }

  // ---------- adjacency lists ----------

  function Lookup<V>(m: map<Id, seq<V>>, id: Id): seq<V> {
    if id in m then m[id] else []
  }

  function Push<V>(m: map<Id, seq<V>>, id: Id, v: V): (r: map<Id, seq<V>>)
    ensures forall k :: Lookup(r, k) == if k == id then Lookup(m, id) + [v] else Lookup(m, k)
  {
    m[id := Lookup(m, id) + [v]]
  }

  function KindRank(kind: EdgeKind): nat {
    match kind
    case Body => 0
    case FalseBranch => 1
    case LoopBack => 2
    case LoopExit => 3
    case Next => 4
    case TrueBranch => 5
    case _ => 6
  }

  /** The order of the sort key (kind.value, target_id, source_id). */
  predicate ArcLeq(a: Arc, b: Arc) {
    || KindRank(a.kind) < KindRank(b.kind)
    || (KindRank(a.kind) == KindRank(b.kind) &&
        (a.target < b.target || (a.target == b.target && a.source <= b.source)))
  }

  ghost predicate Lists(successors: map<Id, seq<Arc>>, predecessors: map<Id, seq<Arc>>, arcs: set<Arc>) {
    && (forall a, id :: a in Lookup(successors, id) <==> a in arcs && a.source == id)
    && (forall a, id :: a in Lookup(predecessors, id) <==> a in arcs && a.target == id)
  }

  /** Every list is in the order of the sort key. */
  ghost predicate InOrder(m: map<Id, seq<Arc>>) {
    forall id :: id in m ==> SortedBy(ArcLeq, m[id])
  }

  function SortLists(m: map<Id, seq<Arc>>): map<Id, seq<Arc>> {
    map id | id in m :: Sort(ArcLeq, m[id])
  }

  lemma SortListsKeeps(succ: map<Id, seq<Arc>>, pred: map<Id, seq<Arc>>, arcs: set<Arc>)
    requires Lists(succ, pred, arcs)
    ensures Lists(SortLists(succ), SortLists(pred), arcs)
    ensures InOrder(SortLists(succ)) && InOrder(SortLists(pred))
  {
    SortListsElements(succ);
    SortListsElements(pred);
  }

  lemma SortListsElements(m: map<Id, seq<Arc>>)
    ensures forall a, id :: a in Lookup(SortLists(m), id) <==> a in Lookup(m, id)
    ensures InOrder(SortLists(m))
  {
    forall a, id ensures a in Lookup(SortLists(m), id) <==> a in Lookup(m, id) {
      SortKeepsElements(ArcLeq, Lookup(m, id));
    }
    forall id | id in m ensures SortedBy(ArcLeq, Sort(ArcLeq, m[id])) {
      SortIsSorted(ArcLeq, m[id]);
    }
  }

  /** sum(outcomes) */
  function CountTrue(outcomes: seq<bool>): nat {
    if outcomes == [] then 0 else (if outcomes[0] then 1 else 0) + CountTrue(outcomes[1..])
  }

  lemma CountTrueOfTwo(a: bool, b: bool)
    ensures [a] + [b] == [a, b] && (CountTrue([a, b]) == 1 <==> a != b)
  {
    assert [b][1..] == [] && CountTrue([b]) == if b then 1 else 0;
    assert [a, b][1..] == [b];
  }

  function Meet(dominators: map<Id, set<Id>>, predecessors: seq<Id>): (common: set<Id>)
    requires forall p :: p in predecessors ==> p in dominators
    ensures predecessors == [] ==> common == {}
    ensures predecessors != [] ==>
              forall d :: d in common <==> forall p :: p in predecessors ==> d in dominators[p]
  {
    if predecessors == [] then {}
    else if |predecessors| == 1 then dominators[predecessors[0]]
    else dominators[predecessors[0]] * Meet(dominators, predecessors[1..])
  }

  lemma PushToLists(succ: map<Id, seq<Arc>>, pred: map<Id, seq<Arc>>, arcs: set<Arc>, arc: Arc)
    requires Lists(succ, pred, arcs)
    ensures Lists(Push(succ, arc.source, arc), Push(pred, arc.target, arc), arcs + {arc})
  {}

  method AdjacencyLists(byId: map<Id, Op>, edges: seq<Edge>)
    returns (succ: map<Id, seq<Arc>>, pred: map<Id, seq<Arc>>)
    ensures Lists(succ, pred, set e | e in edges && Admitted(byId, e) :: ArcOf(e))
    ensures InOrder(succ) && InOrder(pred)
  {
    succ, pred := map[], map[];
    ghost var arcs: set<Arc> := {};
    for i := 0 to |edges|
      invariant Lists(succ, pred, arcs)
      invariant arcs == set e | e in edges[..i] && Admitted(byId, e) :: ArcOf(e)
    {
      var edge := edges[i];
      assert edges[..i + 1] == edges[..i] + [edge];
      if Admitted(byId, edge) {
        var arc := ArcOf(edge);
        PushToLists(succ, pred, arcs, arc);
        succ := Push(succ, arc.source, arc);
        pred := Push(pred, arc.target, arc);
        arcs := arcs + {arc};
      }
    }
    assert edges[..|edges|] == edges;
    SortListsKeeps(succ, pred, arcs);
    succ, pred := SortLists(succ), SortLists(pred);
  }

  class ControlFlowGraph {
    ghost const graph: Graph
    const operations: map<Id, Op>
    const successors: map<Id, seq<Arc>>
    const predecessors: map<Id, seq<Arc>>
    var reachabilityCache: map<(Id, Id), bool>
    var dominatorsByScope: map<Id, map<Id, set<Id>>>

    ghost predicate Built() {
      && WellFormed(graph)
      && operations == graph.ops
      && Lists(successors, predecessors, graph.arcs) && InOrder(successors)
    }

    /** No memoized answer is ever wrong. */
    ghost predicate Valid()
      reads this
    {
      && Built()
      && (forall k :: k in reachabilityCache ==> (reachabilityCache[k] <==> Reach(Rel(graph), k.0, k.1)))
      && (forall scope :: scope in dominatorsByScope ==> dominatorsByScope[scope] == DominatorMap(graph, scope))
    }

    constructor (ops: seq<Op>, edges: seq<Edge>)
      ensures Valid() && graph == GraphOf(ops, edges)
      ensures InOrder(successors) && InOrder(predecessors)
      ensures reachabilityCache == map[] && dominatorsByScope == map[]
    {
      var byId := OpsById(ops);
      var succ, pred := AdjacencyLists(byId, edges);
      graph := GraphOf(ops, edges);
      operations := byId;
      successors := succ;
      predecessors := pred;
      reachabilityCache := map[];
      dominatorsByScope := map[];
    }

    function SuccessorIds(id: Id): (r: seq<Id>)
      ensures Built() ==> forall v :: v in r <==> (id, v) in Rel(graph)
    {
      MapSeq((a: Arc) => a.target, Lookup(successors, id))
    }

    function PredecessorIds(id: Id): (r: seq<Id>)
      ensures Built() ==> forall v :: v in r <==> (v, id) in Rel(graph)
    {
      MapSeq((a: Arc) => a.source, Lookup(predecessors, id))
    }

    /** successors(operation_id, {kind}) */
    function SuccessorsOfKind(id: Id, kind: EdgeKind): (r: seq<Arc>)
      ensures Built() ==> forall a :: a in r <==> a in graph.arcs && a.source == id && a.kind == kind
    {
      Filter((a: Arc) => a.kind == kind, Lookup(successors, id))
    }

    method Reachable(source: Id, target: Id) returns (r: bool)
      requires Valid()
      modifies this`reachabilityCache
      ensures Valid()
      ensures r <==> Reach(Rel(graph), source, target)
      ensures (source, target) in reachabilityCache
    {
      var key := (source, target);
      if key in reachabilityCache {
        return reachabilityCache[key];
      }
      if source !in operations || target !in operations || operations[source].scope != operations[target].scope {
        ReachKeepsScope(graph, source, target);
        reachabilityCache := reachabilityCache[key := false];
        return false;
      }
      r := SearchFrom(Rel(graph), source, target);
      reachabilityCache := reachabilityCache[key := r];
    }

    /** The worklist of reachable. */
    method SearchFrom(ghost rel: Relation, source: Id, target: Id) returns (r: bool)
      requires forall u: Id, v: Id :: (u, v) in rel <==> v in SuccessorIds(u)
      requires forall u: Id, v: Id :: (u, v) in rel ==> v in operations
      ensures r <==> Reach(rel, source, target)
    {
      var queue := SuccessorIds(source);
      var visited: set<Id> := {};
      SuccessorsAreReached(rel, source, source);
      while queue != []
        invariant forall q :: q in queue ==> q in operations && Reach(rel, source, q)
        invariant visited <= operations.Keys && target !in visited
        invariant forall v :: (source, v) in rel ==> v in visited || v in queue
        invariant forall u, v :: u in visited && (u, v) in rel ==> v in visited || v in queue
        decreases operations.Keys - visited, |queue|
      {
        var current := queue[0];
        ghost var before := queue;
        queue := queue[1..];
        assert before == [current] + queue;
        if current == target {
          return true;
        }
        if current in visited {
          continue;
        }
        visited := visited + {current};
        SuccessorsAreReached(rel, source, current);
        var seen := visited;
        queue := queue + Filter(v => v !in seen, SuccessorIds(current));
      }
      ReachStaysInside(rel, source, target, visited);
      return false;
    }

    method Dominates(dominator: Id, operation: Id) returns (r: bool)
      requires Valid()
      modifies this`dominatorsByScope
      ensures Valid()
      ensures r <==> DominatesSpec(graph, dominator, operation)
    {
      if operation !in operations || dominator !in operations ||
        operations[operation].scope != operations[dominator].scope {
        return false;
      }
      var scopeDominators := Dominators(operations[operation].scope);
      return operation in scopeDominators && dominator in scopeDominators[operation];
    }

    method DominatesBetween(start: Id, dominator: Id, operation: Id) returns (r: bool)
      requires Valid()
      modifies this`reachabilityCache
      ensures Valid()
      ensures r <==> DominatesBetweenSpec(graph, start, dominator, operation)
    {
      if !SameScope(Graph(operations, {}), start, dominator) || !SameScope(Graph(operations, {}), start, operation) {
        return false;
      }
      if start == dominator {
        return true;
      }
      if operation == dominator {
        r := Reachable(start, operation);
        return;
      }
      ghost var rel := AvoidingRel(graph, dominator);
      forall u: Id, v: Id ensures (u, v) in rel <==> v in SuccessorsExcept(u, dominator) {
        AvoidingStep(graph, dominator, u, v);
      }
      var missed := SearchAvoiding(rel, start, dominator, operation);
      ReachAvoiding(graph, start, dominator, operation);
      return !missed;
    }

    function SuccessorsExcept(id: Id, d: Id): seq<Id> {
      Filter(v => v != d, SuccessorIds(id))
    }

    /** The counterexample search of dominates_between: a walk that misses the dominator. */
    method SearchAvoiding(ghost rel: Relation, start: Id, dominator: Id, operation: Id) returns (missed: bool)
      requires forall u: Id, v: Id :: (u, v) in rel <==> v in SuccessorsExcept(u, dominator)
      requires forall u: Id, v: Id :: (u, v) in rel ==> v in operations
      ensures missed <==> Reach(rel, start, operation)
    {
      var queue := SuccessorsExcept(start, dominator);
      var visited: set<Id> := {};
      SuccessorsAreReached(rel, start, start);
      while queue != []
        invariant forall q :: q in queue ==> q in operations && Reach(rel, start, q)
        invariant visited <= operations.Keys && operation !in visited
        invariant forall v :: (start, v) in rel ==> v in visited || v in queue
        invariant forall u, v :: u in visited && (u, v) in rel ==> v in visited || v in queue
        decreases operations.Keys - visited, |queue|
      {
        var current := queue[0];
        ghost var before := queue;
        queue := queue[1..];
        assert before == [current] + queue;
        if current == dominator || current in visited {
          continue;
        }
        if current == operation {
          return true;
        }
        visited := visited + {current};
        var seen := visited;
        SuccessorsAreReached(rel, start, current);
        queue := queue + Filter(v => v !in seen, SuccessorsExcept(current, dominator));
      }
      ReachStaysInside(rel, start, operation, visited);
      return false;
    }

    method BranchControls(branch: Id, operation: Id) returns (r: bool)
      requires Built()
      ensures r <==> BranchControlsSpec(graph, branch, operation)
    {
      var onTrue := OutcomeReached(branch, TrueBranch, operation);
      var onFalse := OutcomeReached(branch, FalseBranch, operation);
      var outcomes := (if onTrue.Some? then [onTrue.value] else []) + (if onFalse.Some? then [onFalse.value] else []);
      if onTrue.Some? && onFalse.Some? {
        CountTrueOfTwo(onTrue.value, onFalse.value);
      }
      return |outcomes| == 2 && CountTrue(outcomes) == 1;
    }

    /** One round of the loop over branch kinds: nothing when the outcome has no target. */
    method OutcomeReached(branch: Id, kind: EdgeKind, operation: Id) returns (r: Option<bool>)
      requires Built()
      ensures r.Some? <==> HasOutcome(graph, branch, kind)
      ensures r.Some? ==> (r.value <==> OutcomeReaches(graph, branch, kind, operation))
    {
      var arcs := SuccessorsOfKind(branch, kind);
      OutcomeInList(branch, kind, operation, arcs);
      if arcs == [] {
        return None;
      }
      var any := AnyReaches(arcs, operation);
      return Some(any);
    }

    method AnyReaches(arcs: seq<Arc>, operation: Id) returns (any: bool)
      requires Built()
      ensures any <==> SomeReaches(arcs, operation)
    {
      any := false;
      for i := 0 to |arcs|
        invariant any <==> SomeReaches(arcs[..i], operation)
      {
        assert arcs[..i + 1] == arcs[..i] + [arcs[i]];
        SomeReachesOneMore(arcs[..i], arcs[i], operation);
        var reached := ReachableWithoutLoopBack(arcs[i].target, operation);
        any := any || arcs[i].target == operation || reached;
      }
      assert arcs[..|arcs|] == arcs;
    }

    ghost predicate SomeReaches(arcs: seq<Arc>, operation: Id) {
      exists a :: a in arcs && ReachStar(LoopFreeRel(graph), a.target, operation)
    }

    lemma SomeReachesOneMore(arcs: seq<Arc>, arc: Arc, operation: Id)
      ensures SomeReaches(arcs + [arc], operation) <==>
              SomeReaches(arcs, operation) || ReachStar(LoopFreeRel(graph), arc.target, operation)
    {
      if ReachStar(LoopFreeRel(graph), arc.target, operation) {
        assert arc in arcs + [arc];
      }
    }

    lemma OutcomeInList(branch: Id, kind: EdgeKind, operation: Id, arcs: seq<Arc>)
      requires Built() && arcs == SuccessorsOfKind(branch, kind)
      ensures HasOutcome(graph, branch, kind) <==> arcs != []
      ensures OutcomeReaches(graph, branch, kind, operation) <==> SomeReaches(arcs, operation)
    {
      if arcs != [] { assert arcs[0] in arcs; }
    }

    /** _reachable_without(source, target, {LOOP_BACK}) */
    method ReachableWithoutLoopBack(source: Id, target: Id) returns (r: bool)
      requires Built()
      ensures r <==> ReachStar(LoopFreeRel(graph), source, target)
    {
      if source == target {
        return true;
      }
      ghost var rel := LoopFreeRel(graph);
      forall u: Id, v: Id ensures (u, v) in rel <==> v in LoopFreeIds(u) {
        LoopFreeStep(u, v);
      }
      r := SearchLoopFree(rel, operations.Keys + {source}, source, target);
    }

    function LoopFreeIds(id: Id): seq<Id> {
      MapSeq((a: Arc) => a.target, Filter((a: Arc) => !a.kind.LoopBack?, Lookup(successors, id)))
    }

    lemma LoopFreeStep(u: Id, v: Id)
      requires Built()
      ensures (u, v) in LoopFreeRel(graph) <==> v in LoopFreeIds(u)
    {
      if (u, v) in LoopFreeRel(graph) {
        var a :| a in graph.arcs && !a.kind.LoopBack? && (a.source, a.target) == (u, v);
        assert a in Filter((a: Arc) => !a.kind.LoopBack?, Lookup(successors, u));
      }
    }

    /** The worklist of _reachable_without; arcs of the forbidden kind are skipped. */
    method SearchLoopFree(ghost rel: Relation, ghost all: set<Id>, source: Id, target: Id) returns (r: bool)
      requires forall u: Id, v: Id :: (u, v) in rel <==> v in LoopFreeIds(u)
      requires source in all && source != target && forall u: Id, v: Id :: (u, v) in rel ==> v in all
      ensures r <==> ReachStar(rel, source, target)
    {
      var queue := [source];
      var visited: set<Id> := {};
      while queue != []
        invariant forall q :: q in queue ==> q in all && ReachStar(rel, source, q)
        invariant visited <= all && target !in visited && target !in queue
        invariant source in visited || source in queue
        invariant forall u, v :: u in visited && (u, v) in rel ==> v in visited || v in queue
        decreases all - visited, |queue|
      {
        var current := queue[0];
        ghost var before := queue;
        queue := queue[1..];
        assert before == [current] + queue;
        if current in visited {
          continue;
        }
        visited := visited + {current};
        SuccessorsAreReached(rel, source, current);
        if target in LoopFreeIds(current) {
          return true;
        }
        queue := queue + LoopFreeIds(current);
      }
      ReachStaysInside(rel, source, target, visited);
      return false;
    }

    lemma SuccessorsAreReached(rel: Relation, source: Id, current: Id)
      requires ReachStar(rel, source, current)
      ensures forall q :: (current, q) in rel ==> Reach(rel, source, q)
    {
      forall q | (current, q) in rel ensures Reach(rel, source, q) {
        ReachStep(rel, source, current, q);
      }
    }

    method Dominators(scope: Id) returns (frozen: map<Id, set<Id>>)
      requires Valid()
      modifies this`dominatorsByScope
      ensures Valid()
      ensures frozen == DominatorMap(graph, scope)
      ensures scope in dominatorsByScope
    {
      if scope in dominatorsByScope {
        return dominatorsByScope[scope];
      }
      var nodes := set id | id in operations && operations[id].scope == scope;
      if nodes == {} {
        dominatorsByScope := dominatorsByScope[scope := map[]];
        return map[];
      }
      frozen := SolveDominators(scope, nodes);
      dominatorsByScope := dominatorsByScope[scope := frozen];
    }

    /** The fixpoint loop of _dominators. */
    method SolveDominators(scope: Id, nodes: set<Id>) returns (dominators: map<Id, set<Id>>)
      requires Built() && nodes == ScopeNodes(graph, scope) && nodes != {}
      ensures dominators == DominatorMap(graph, scope)
    {
      var entries := EntryIds(scope, nodes);
      dominators := InitialMap(nodes, entries);
      InitialSolution(graph, scope, dominators);
      var changed := true;
      while changed
        invariant Solving(graph, scope, dominators)
        invariant !changed ==> AllEquations(graph, scope, dominators)
        decreases Pairs(dominators), changed
      {
        dominators, changed := UpdateRound(scope, nodes, entries, dominators);
      }
      FixpointIsExact(graph, scope, dominators);
    }

    /** One pass of the for loop over the sorted non-entry operations. */
    method UpdateRound(scope: Id, nodes: set<Id>, entries: set<Id>, start: map<Id, set<Id>>)
      returns (dominators: map<Id, set<Id>>, changed: bool)
      requires Built() && nodes == ScopeNodes(graph, scope) && entries == Entries(graph, scope)
      requires Solving(graph, scope, start)
      ensures Solving(graph, scope, dominators)
      ensures Progress(start, dominators, changed)
      ensures !changed ==> AllEquations(graph, scope, dominators)
    {
      dominators, changed := start, false;
      var order := SortedSet(nodes - entries);
      for i := 0 to |order|
        invariant Solving(graph, scope, dominators)
        invariant Progress(start, dominators, changed)
        invariant !changed ==> forall j :: 0 <= j < i ==> Equation(graph, start, order[j])
      {
        assert order[i] in nodes - entries;
        var here;
        dominators, here := UpdateNode(scope, nodes, dominators, order[i]);
        changed := changed || here;
      }
      if !changed {
        EquationsFromOrder(scope, dominators, order);
      }
    }

    method UpdateNode(scope: Id, nodes: set<Id>, start: map<Id, set<Id>>, node: Id)
      returns (dominators: map<Id, set<Id>>, changed: bool)
      requires Built() && nodes == ScopeNodes(graph, scope) && node in nodes - Entries(graph, scope)
      requires Solving(graph, scope, start)
      ensures Solving(graph, scope, dominators)
      ensures Progress(start, dominators, changed)
      ensures !changed ==> Equation(graph, start, node)
    {
      var updated := UpdatedEntry(scope, nodes, start, node);
      changed := updated != start[node];
      dominators := if changed then start[node := updated] else start;
      if changed {
        UpdateKeepsSolving(graph, scope, start, node, updated);
      }
    }

    lemma EquationsFromOrder(scope: Id, dominators: map<Id, set<Id>>, order: seq<Id>)
      requires order == SortedSet(ScopeNodes(graph, scope) - Entries(graph, scope))
      requires forall j :: 0 <= j < |order| ==> Equation(graph, dominators, order[j])
      ensures AllEquations(graph, scope, dominators)
    {
      forall n | n in ScopeNodes(graph, scope) - Entries(graph, scope) ensures Equation(graph, dominators, n) {
        assert n in order;
      }
    }

    function UpdatedEntry(scope: Id, nodes: set<Id>, dominators: map<Id, set<Id>>, node: Id): (updated: set<Id>)
      requires Built() && nodes == ScopeNodes(graph, scope) && node in nodes - Entries(graph, scope)
      requires dominators.Keys == nodes
      ensures forall d :: d in updated <==> PassesUpdate(graph, dominators, node, d)
    {
      PredecessorsInScope(node, scope);
      NonEntryHasPredecessor(graph, scope, node);
      var preds := Filter(p => p in nodes, PredecessorIds(node));
      assert forall p :: p in preds <==> (p, node) in Rel(graph);
      MeetMeans(graph, dominators, node, preds);
      {node} + Meet(dominators, preds)
    }

    lemma PredecessorsInScope(n: Id, scope: Id)
      requires Built() && n in ScopeNodes(graph, scope)
      ensures forall p :: p in PredecessorIds(n) ==> p in ScopeNodes(graph, scope)
    {
      forall p | p in PredecessorIds(n) ensures p in ScopeNodes(graph, scope) {
        var a :| a in graph.arcs && (a.source, a.target) == (p, n);
      }
    }

    function EntryIds(scope: Id, nodes: set<Id>): (entries: set<Id>)
      requires Built() && nodes == ScopeNodes(graph, scope) && nodes != {}
      ensures entries == Entries(graph, scope)
    {
      var sources := set n | n in nodes && Filter(p => p in nodes, PredecessorIds(n)) == [];
      EntriesAre(scope, nodes, sources);
      if sources == {} then {MinOf(nodes)} else sources
    }

    lemma EntriesAre(scope: Id, nodes: set<Id>, sources: set<Id>)
      requires Built() && nodes == ScopeNodes(graph, scope) && nodes != {}
      requires sources == set n | n in nodes && Filter(p => p in nodes, PredecessorIds(n)) == []
      ensures Entries(graph, scope) == if sources != {} then sources else {MinOf(nodes)}
    {
      forall n | n in nodes ensures n in sources <==> forall m :: (m, n) !in Rel(graph) {
        PredecessorsInScope(n, scope);
        var inside := Filter(p => p in nodes, PredecessorIds(n));
        assert inside == [] <==> forall m :: m !in PredecessorIds(n) by {
          if inside != [] { assert inside[0] in inside; }
        }
      }
      assert sources == set n | n in nodes && forall m :: (m, n) !in Rel(graph);
    }
  }

  // ---------- lemmas behind the queries ----------

  lemma {:induction false} WalkKeepsScope(g: Graph, p: seq<Id>, k: nat)
    requires WellFormed(g) && IsWalk(Rel(g), p) && k < |p|
    ensures k == 0 || SameScope(g, p[0], p[k])
  {
    if k > 0 {
      WalkKeepsScope(g, p, k - 1);
      assert (p[k - 1], p[k]) in Rel(g);
    }
  }

  lemma ReachKeepsScope(g: Graph, s: Id, t: Id)
    requires WellFormed(g)
    ensures Reach(Rel(g), s, t) ==> SameScope(g, s, t)
  {
    if Reach(Rel(g), s, t) {
      var p :| WalkFromTo(Rel(g), p, s, t) && |p| > 1;
      WalkKeepsScope(g, p, |p| - 1);
    }
  }

  lemma AvoidingStep(g: Graph, d: Id, u: Id, v: Id)
    ensures (u, v) in AvoidingRel(g, d) <==> (u, v) in Rel(g) && v != d
  {
    if (u, v) in Rel(g) && v != d {
      var a :| a in g.arcs && (a.source, a.target) == (u, v);
      assert a.target != d;
    }
  }

  /** The counterexample search looks for exactly the walks that miss d. */
  lemma ReachAvoiding(g: Graph, s: Id, d: Id, t: Id)
    requires s != d
    ensures Reach(AvoidingRel(g, d), s, t) <==> !EveryWalkVisits(g, s, d, t)
  {
    var avoiding := AvoidingRel(g, d);
    if Reach(avoiding, s, t) {
      var p :| WalkFromTo(avoiding, p, s, t) && |p| > 1;
      forall i, j | 0 <= i && j == i + 1 && j < |p| ensures (p[i], p[j]) in Rel(g) && p[j] != d {
        AvoidingStep(g, d, p[i], p[j]);
      }
      assert WalkFromTo(Rel(g), p, s, t);
      assert forall k :: 0 <= k < |p| ==> p[k] != d by {
        forall k | 0 <= k < |p| ensures p[k] != d {
          var i := k - 1;
          if k > 0 { assert (p[i], p[k]) in Rel(g) && p[k] != d; }
        }
      }
    }
    if !EveryWalkVisits(g, s, d, t) {
      var p :| WalkFromTo(Rel(g), p, s, t) && |p| > 1 && d !in p;
      forall i, j | 0 <= i && j == i + 1 && j < |p| ensures (p[i], p[j]) in avoiding {
        AvoidingStep(g, d, p[i], p[j]);
      }
      assert WalkFromTo(avoiding, p, s, t);
    }
  }

  // ---------- the dominator fixpoint ----------

  ghost function Pairs(dominators: map<Id, set<Id>>): set<(Id, Id)> {
    set n, d | n in dominators && d in dominators[n] :: (n, d)
  }

  /** Every change removes a pair, so rounds terminate. */
  ghost predicate Progress(start: map<Id, set<Id>>, now: map<Id, set<Id>>, changed: bool) {
    if changed then Pairs(now) < Pairs(start) else now == start
  }

  ghost predicate PassesUpdate(g: Graph, dominators: map<Id, set<Id>>, n: Id, d: Id) {
    d == n || forall p :: (p, n) in Rel(g) ==> p in dominators && d in dominators[p]
  }

  /** dominators[n] == {n} united with the intersection over n's predecessors. */
  ghost predicate Equation(g: Graph, dominators: map<Id, set<Id>>, n: Id) {
    n in dominators && forall d :: d in dominators[n] ==> PassesUpdate(g, dominators, n, d)
  }

  ghost predicate AllEquations(g: Graph, scope: Id, dominators: map<Id, set<Id>>) {
    forall n :: n in ScopeNodes(g, scope) - Entries(g, scope) ==> Equation(g, dominators, n)
  }

  ghost predicate Shape(g: Graph, scope: Id, dominators: map<Id, set<Id>>) {
    && dominators.Keys == ScopeNodes(g, scope)
    && (forall n :: n in Entries(g, scope) ==> dominators[n] == {n})
    && (forall n :: n in dominators ==> dominators[n] <= ScopeNodes(g, scope))
  }

  /** One more update can only shrink the candidate sets. */
  ghost predicate Shrinking(g: Graph, scope: Id, dominators: map<Id, set<Id>>)
    requires Shape(g, scope, dominators)
  {
    forall n, d | n in ScopeNodes(g, scope) - Entries(g, scope) && d in ScopeNodes(g, scope) ::
      PassesUpdate(g, dominators, n, d) ==> d in dominators[n]
  }

  /** No real dominator has been lost. */
  ghost predicate Covering(g: Graph, scope: Id, dominators: map<Id, set<Id>>)
    requires Shape(g, scope, dominators)
  {
    forall n, d | n in ScopeNodes(g, scope) && d in ScopeNodes(g, scope) ::
      EntryDominates(g, Entries(g, scope), d, n) ==> d in dominators[n]
  }

  /** The loop invariant of the fixpoint. */
  ghost predicate Solving(g: Graph, scope: Id, dominators: map<Id, set<Id>>) {
    Shape(g, scope, dominators) && Shrinking(g, scope, dominators) && Covering(g, scope, dominators)
  }

  function InitialMap(nodes: set<Id>, entries: set<Id>): map<Id, set<Id>> {
    map n | n in nodes :: if n in entries then {n} else nodes
  }

  lemma InitialSolution(g: Graph, scope: Id, dominators: map<Id, set<Id>>)
    requires dominators == InitialMap(ScopeNodes(g, scope), Entries(g, scope))
    ensures Solving(g, scope, dominators)
  {
    var entries := Entries(g, scope);
    forall n, d | n in entries && EntryDominates(g, entries, d, n) ensures d == n {
      assert IsWalk(Rel(g), [n]);
    }
  }

  lemma MeetMeans(g: Graph, dominators: map<Id, set<Id>>, n: Id, preds: seq<Id>)
    requires forall p :: p in preds <==> (p, n) in Rel(g)
    requires forall p :: p in preds ==> p in dominators
    requires exists p :: (p, n) in Rel(g)
    ensures forall d :: d in {n} + Meet(dominators, preds) <==> PassesUpdate(g, dominators, n, d)
  {
    var m :| (m, n) in Rel(g);
    assert m in preds;
  }

  lemma NonEntryHasPredecessor(g: Graph, scope: Id, n: Id)
    requires n in ScopeNodes(g, scope) - Entries(g, scope)
    ensures exists m :: (m, n) in Rel(g)
  {
    var sources := set k | k in ScopeNodes(g, scope) && forall m :: (m, k) !in Rel(g);
    assert n !in sources;
  }

  /** Rewriting one entry shrinks the solution and keeps it an over-approximation. */
  lemma UpdateKeepsSolving(g: Graph, scope: Id, dominators: map<Id, set<Id>>, n: Id, updated: set<Id>)
    requires WellFormed(g) && Solving(g, scope, dominators)
    requires n in ScopeNodes(g, scope) - Entries(g, scope)
    requires forall d :: d in updated <==> PassesUpdate(g, dominators, n, d)
    requires updated != dominators[n]
    ensures Solving(g, scope, dominators[n := updated])
    ensures Pairs(dominators[n := updated]) < Pairs(dominators)
  {
    UpdateKeepsShape(g, scope, dominators, n, updated);
    UpdateKeepsShrinking(g, scope, dominators, n, updated);
    UpdateKeepsCovering(g, scope, dominators, n, updated);
    var gone :| gone in dominators[n] && gone !in updated;
    assert (n, gone) in Pairs(dominators) && (n, gone) !in Pairs(dominators[n := updated]);
  }

  lemma UpdateKeepsShape(g: Graph, scope: Id, dominators: map<Id, set<Id>>, n: Id, updated: set<Id>)
    requires Shape(g, scope, dominators) && Shrinking(g, scope, dominators)
    requires n in ScopeNodes(g, scope) - Entries(g, scope)
    requires forall d :: d in updated <==> PassesUpdate(g, dominators, n, d)
    ensures Shape(g, scope, dominators[n := updated]) && updated <= dominators[n]
  {
    NonEntryHasPredecessor(g, scope, n);
    var m :| (m, n) in Rel(g);
    forall d | d in updated ensures d in ScopeNodes(g, scope) {
      if d != n { assert m in dominators && d in dominators[m]; }
    }
  }

  lemma UpdateKeepsShrinking(g: Graph, scope: Id, dominators: map<Id, set<Id>>, n: Id, updated: set<Id>)
    requires Shape(g, scope, dominators) && Shrinking(g, scope, dominators) && n in dominators
    requires Shape(g, scope, dominators[n := updated]) && updated <= dominators[n]
    requires forall d :: d in updated <==> PassesUpdate(g, dominators, n, d)
    ensures Shrinking(g, scope, dominators[n := updated])
  {
    var next := dominators[n := updated];
    forall k, d | k in ScopeNodes(g, scope) - Entries(g, scope) && d in ScopeNodes(g, scope) &&
      PassesUpdate(g, next, k, d)
      ensures d in next[k]
    {
      assert PassesUpdate(g, dominators, k, d);
    }
  }

  lemma UpdateKeepsCovering(g: Graph, scope: Id, dominators: map<Id, set<Id>>, n: Id, updated: set<Id>)
    requires WellFormed(g) && Shape(g, scope, dominators) && Covering(g, scope, dominators) && n in dominators
    requires Shape(g, scope, dominators[n := updated])
    requires forall d :: d in updated <==> PassesUpdate(g, dominators, n, d)
    ensures Covering(g, scope, dominators[n := updated])
  {
    var entries := Entries(g, scope);
    forall d | d in ScopeNodes(g, scope) && EntryDominates(g, entries, d, n) ensures PassesUpdate(g, dominators, n, d) {
      forall p | d != n && (p, n) in Rel(g) ensures p in dominators && d in dominators[p] {
        var a :| a in g.arcs && (a.source, a.target) == (p, n);
        assert p in ScopeNodes(g, scope);
        DominatesPredecessor(g, entries, d, p, n);
      }
    }
  }

  lemma DominatesPredecessor(g: Graph, entries: set<Id>, d: Id, p: Id, n: Id)
    requires (p, n) in Rel(g) && d != n && EntryDominates(g, entries, d, n)
    ensures EntryDominates(g, entries, d, p)
  {
    forall w | IsWalk(Rel(g), w) && w[0] in entries && w[|w| - 1] == p ensures d in w {
      var longer := w + [n];
      assert IsWalk(Rel(g), longer);
      assert d in longer;
    }
  }

  lemma {:induction false} SolutionLiesOnWalk(g: Graph, scope: Id, dominators: map<Id, set<Id>>, w: seq<Id>, d: Id)
    requires Shape(g, scope, dominators) && AllEquations(g, scope, dominators)
    requires IsWalk(Rel(g), w) && w[0] in Entries(g, scope)
    requires w[|w| - 1] in dominators && d in dominators[w[|w| - 1]]
    ensures d in w
    decreases |w|
  {
    var n := w[|w| - 1];
    if n !in Entries(g, scope) && d != n {
      var k := |w| - 2;
      assert (w[k], w[k + 1]) in Rel(g);
      assert Equation(g, dominators, n) && PassesUpdate(g, dominators, n, d);
      SubWalk(Rel(g), w, 0, k + 1);
      SolutionLiesOnWalk(g, scope, dominators, w[..k + 1], d);
    }
  }

  lemma FixpointIsExact(g: Graph, scope: Id, dominators: map<Id, set<Id>>)
    requires Solving(g, scope, dominators) && AllEquations(g, scope, dominators)
    ensures dominators == DominatorMap(g, scope)
  {
    var entries := Entries(g, scope);
    forall n, d | n in dominators && d in dominators[n] ensures EntryDominates(g, entries, d, n) {
      forall w | IsWalk(Rel(g), w) && w[0] in entries && w[|w| - 1] == n ensures d in w {
        SolutionLiesOnWalk(g, scope, dominators, w, d);
      }
    }
    assert forall n :: n in dominators ==> dominators[n] == DominatorMap(g, scope)[n];
  }

  // ---------- from_ir ----------

  /** The graph from_ir builds: operations of the chosen languages and the edges among them. */
  function GraphOfIr(ir: SemanticIR, languages: set<string>): Graph {
    GraphOf(KeptOps(ir.operations, languages), EdgesAmong(KeptOps(ir.operations, languages), ir.edges))
  }

  function EdgesAmong(ops: seq<Op>, edges: seq<Edge>): seq<Edge> {
    var ids := set op | op in ops :: op.id;
    Filter((e: Edge) => e.source in ids && e.target in ids, edges)
  }

  method FromIr(ir: SemanticIR, languages: set<string>) returns (cfg: ControlFlowGraph)
    ensures fresh(cfg) && cfg.Valid() && cfg.graph == GraphOfIr(ir, languages)
  {
    var ops := KeptOps(ir.operations, languages);
    cfg := new ControlFlowGraph(ops, EdgesAmong(ops, ir.edges));
  }
}
