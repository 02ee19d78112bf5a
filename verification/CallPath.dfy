/** Shortest deterministic call paths (InterproceduralGraph.call_path,
    smartbench/analysis/interprocedural.py). */
module CallPath {
  import opened Sequences
  import opened Walks
  import opened Ir
  import opened Shortlex

  const MAX_CALL_DEPTH: nat := 32

  /** Functions one call apart: the call's scope and the linked target. */
  ghost function CallRel(ops: map<Id, Op>, edges: seq<Edge>): Relation {
    set e | e in edges && e.kind.Calls? && e.source in ops :: (ops[e.source].scope, e.target)
  }

  /** p is the least walk to its end, shorter first, then by ids. */
  ghost predicate Least(rel: Relation, source: Id, p: seq<Id>) {
    && IsWalk(rel, p) && p[0] == source
    && forall q :: WalkFromTo(rel, q, source, p[|p| - 1]) ==> AtMost(p, q)
  }

  ghost predicate NoWalkWithin(rel: Relation, source: Id, target: Id, depth: nat) {
    forall q :: WalkFromTo(rel, q, source, target) ==> |q| - 1 > depth
  }

  // ---------- the search invariant ----------

  /** best holds a least walk for every visited function; those expanded have their callees
      visited, unless they sit at the depth bound. */
  ghost predicate Settled(rel: Relation, source: Id, target: Id, depth: nat, best: map<Id, seq<Id>>, done: set<Id>) {
    && source in best && best[source] == [source]
    && target !in best
    && (forall v :: v in best ==> Least(rel, source, best[v]) && Last(best[v]) == v && |best[v]| - 1 <= depth)
    && done <= best.Keys
    && (forall u: Id, v: Id :: u in done && |best[u]| - 1 < depth && (u, v) in rel ==> v in best)
  }

  /** The waiting walks, in strictly increasing order, are those of the functions not expanded. */
  ghost predicate Waiting(best: map<Id, seq<Id>>, done: set<Id>, queue: seq<seq<Id>>) {
    && (forall i :: 0 <= i < |queue| ==> queue[i] != [] && Last(queue[i]) in best && best[Last(queue[i])] == queue[i])
    && (forall i :: 0 <= i < |queue| ==> Last(queue[i]) !in done)
    && (forall i, j {:trigger Less(queue[i], queue[j])} :: 0 <= i < j < |queue| ==> Less(queue[i], queue[j]))
    && (forall v :: v in best && v !in done ==> best[v] in queue)
    && (forall v :: v in best ==> best[v] != [] && Last(best[v]) == v)
  }

  /** Everything waiting is later than the walk being expanded, and at most one step longer. */
  ghost predicate After(queue: seq<seq<Id>>, p: seq<Id>) {
    forall x :: x in queue ==>
      Less(p, x) && x != [] && (|x| == |p| || (|x| == |p| + 1 && AtMost(Init(x), p)))
  }

  /** Before p's callees are added, everything longer extends an earlier walk. */
  ghost predicate Behind(queue: seq<seq<Id>>, p: seq<Id>) {
    forall x :: x in queue ==>
      Less(p, x) && x != [] && (|x| == |p| || (|x| == |p| + 1 && Less(Init(x), p)))
  }

  lemma BehindIsAfter(queue: seq<seq<Id>>, p: seq<Id>)
    requires Behind(queue, p)
    ensures After(queue, p)
    ensures forall x :: x in queue && |x| == |p| + 1 ==> Init(x) != p
  {
    LexIrreflexive(p);
  }

  /** A bounded walk whose end is not expanded is not before the walk being expanded. */
  lemma {:induction false} UnexpandedIsLater(
    rel: Relation, source: Id, target: Id, depth: nat, best: map<Id, seq<Id>>, done: set<Id>, queue: seq<seq<Id>>,
    p: seq<Id>, u: Id,
    r: seq<Id>, n: nat)
    requires Settled(rel, source, target, depth, best, done) && After(queue, p)
    requires u in best && best[u] == p
    requires forall v :: v in best && v !in done && v != u ==> best[v] in queue
    requires IsWalk(rel, r) && r[0] == source && n < |r| && n <= depth
    ensures r[n] in done || AtMost(p, r[..n + 1])
  {
    if n == 0 {
      assert r[..1] == [source];
      assert best[source] == r[..1];
    } else {
      UnexpandedIsLater(rel, source, target, depth, best, done, queue, p, u, r, n - 1);
      var shorter, longer := r[..n], r[..n + 1];
      if r[n - 1] in done {
        SubWalk(rel, r, 0, n);
        SubWalk(rel, r, 0, n + 1);
        assert AtMost(best[r[n - 1]], shorter);
        assert (r[n - 1], r[n]) in rel;
        var v := r[n];
        assert v in best && AtMost(best[v], longer);
        if v !in done && v != u {
          Transitive(p, best[v], longer);
        }
      } else {
        Transitive(p, shorter, longer);
      }
    }
  }

  /** Extending the walk being expanded by a callee not seen before gives that callee's least walk. */
  lemma ExtensionIsLeast(
    rel: Relation, source: Id, target: Id, depth: nat, best: map<Id, seq<Id>>, done: set<Id>, queue: seq<seq<Id>>,
    p: seq<Id>, u: Id, v: Id)
    requires Settled(rel, source, target, depth, best, done) && After(queue, p)
    requires u in best && best[u] == p && |p| - 1 < depth && (u, v) in rel && v !in best
    requires forall w :: w in best && w !in done && w != u ==> best[w] in queue
    ensures Least(rel, source, p + [v])
  {
    var longer := p + [v];
    assert IsWalk(rel, longer);
    forall q | WalkFromTo(rel, q, source, v) ensures AtMost(longer, q) {
      assert |q| > 1;
      var n := |q| - 2;
      assert (q[n], q[n + 1]) in rel;
      assert q == q[..n + 1] + [v];
      if n <= depth {
        UnexpandedIsLater(rel, source, target, depth, best, done, queue, p, u, q, n);
        if q[n] in done {
          SubWalk(rel, q, 0, n + 1);
          assert AtMost(best[q[n]], q[..n + 1]);
          assert |best[q[n]]| - 1 >= depth;
        } else {
          Appending(p, v, q[..n + 1], v);
        }
      }
    }
  }

  /** With nothing waiting, no bounded walk reaches the target. */
  lemma {:induction false} ExhaustedStaysDone(
    rel: Relation, source: Id, target: Id, depth: nat, best: map<Id, seq<Id>>, done: set<Id>, r: seq<Id>, n: nat)
    requires Settled(rel, source, target, depth, best, done) && best.Keys == done
    requires IsWalk(rel, r) && r[0] == source && n < |r| && n <= depth
    ensures r[n] in done
  {
    if n > 0 {
      ExhaustedStaysDone(rel, source, target, depth, best, done, r, n - 1);
      assert (r[n - 1], r[n]) in rel;
      SubWalk(rel, r, 0, n);
      assert AtMost(best[r[n - 1]], r[..n]);
    }
  }

  lemma {:induction false} LexIrreflexive(p: seq<Id>)
    ensures !LexLess(p, p)
    decreases |p|
  {
    if p != [] { LexIrreflexive(Init(p)); }
  }

  /** Taking the head off the queue makes it the walk being expanded. */
  lemma PopWaiting(best: map<Id, seq<Id>>, done: set<Id>, queue: seq<seq<Id>>)
    requires queue != [] && Waiting(best, done, queue)
    ensures var u := Last(queue[0]);
            u in best && best[u] == queue[0] && u !in done && Waiting(best, done + {u}, queue[1..])
  {
    var u := Last(queue[0]);
    forall i | 0 <= i < |queue[1..]| ensures Last(queue[1..][i]) !in done + {u} {
      assert Less(queue[0], queue[i + 1]);
      LexIrreflexive(queue[0]);
    }
    forall v | v in best && v !in done + {u} ensures best[v] in queue[1..] {
      var i :| 0 <= i < |queue| && queue[i] == best[v];
      assert i > 0 && queue[1..][i - 1] == best[v];
    }
  }

  /** Appending p + [v] keeps the queue increasing when earlier callees of p are smaller. */
  lemma PushWaiting(best: map<Id, seq<Id>>, done: set<Id>, queue: seq<seq<Id>>, p: seq<Id>, v: Id)
    requires Waiting(best, done, queue) && After(queue, p) && p != [] && v !in best && v !in done
    requires forall x :: x in queue && |x| == |p| + 1 && Init(x) == p ==> Last(x) < v
    ensures Waiting(best[v := p + [v]], done, queue + [p + [v]])
    ensures After(queue + [p + [v]], p)
  {
    var next := queue + [p + [v]];
    assert Init(p + [v]) == p;
    forall x | x in queue ensures Less(x, p + [v]) {
      if |x| == |p| + 1 {
        assert x == Init(x) + [Last(x)];
        Appending(Init(x), Last(x), p, v);
      }
    }
    forall i, j | 0 <= i < j < |next| ensures Less(next[i], next[j]) {
      assert next[i] in queue;
    }
    forall i | 0 <= i < |queue| ensures Last(queue[i]) != v {}
    assert next[|queue|] == p + [v];
  }

  /** The next head takes over as reference walk. */
  lemma AfterNextHead(queue: seq<seq<Id>>, p: seq<Id>)
    requires queue != [] && After(queue, p) && forall i, j :: 0 <= i < j < |queue| ==> Less(queue[i], queue[j])
    ensures Behind(queue[1..], queue[0])
  {
    var head := queue[0];
    assert head in queue;
    forall x | x in queue[1..]
      ensures Less(head, x) && x != [] && (|x| == |head| || (|x| == |head| + 1 && Less(Init(x), head)))
    {
      var i :| 0 <= i < |queue[1..]| && queue[1..][i] == x;
      assert queue[i + 1] == x && x in queue;
      if |x| == |head| + 1 { Transitive(Init(x), p, head); }
    }
  }

  // ---------- the query ----------

  datatype Query = InvalidDepth | NoPath | UnknownFunction(ids: seq<Id>) | Found(functions: seq<Op>)

  /** The adjacency sets of call_path. */
  method Adjacency(ops: map<Id, Op>, edges: seq<Edge>) returns (adjacency: map<Id, set<Id>>)
    ensures forall u: Id, v: Id :: (u in adjacency && v in adjacency[u]) <==> (u, v) in CallRel(ops, edges)
  {
    adjacency := map[];
    for i := 0 to |edges|
      invariant forall u: Id, v: Id :: (u in adjacency && v in adjacency[u]) <==> (u, v) in CallRel(ops, edges[..i])
    {
      var e := edges[i];
      CallRelOneMore(ops, edges[..i], e);
      assert edges[..i + 1] == edges[..i] + [e];
      if e.kind.Calls? && e.source in ops {
        var scope := ops[e.source].scope;
        adjacency := adjacency[scope := (if scope in adjacency then adjacency[scope] else {}) + {e.target}];
      }
    }
    assert edges[..|edges|] == edges;
  }

  lemma CallRelOneMore(ops: map<Id, Op>, edges: seq<Edge>, e: Edge)
    ensures CallRel(ops, edges + [e]) ==
            CallRel(ops, edges) + (if e.kind.Calls? && e.source in ops then {(ops[e.source].scope, e.target)} else {})
  {
    forall x | x in CallRel(ops, edges) ensures x in CallRel(ops, edges + [e]) {
      var d :| d in edges && d.kind.Calls? && d.source in ops && (ops[d.source].scope, d.target) == x;
      assert d in edges + [e];
    }
    assert e in edges + [e];
  }

  /** The breadth-first search: a walk over functions, or None. */
  method Search(ghost rel: Relation, ghost all: set<Id>, adjacency: map<Id, set<Id>>, source: Id, target: Id,
          depth: nat)
    returns (found: Option<seq<Id>>)
    requires forall u: Id, v: Id :: (u in adjacency && v in adjacency[u]) <==> (u, v) in rel
    requires source in all && source != target && forall u: Id, v: Id :: (u, v) in rel ==> v in all
    ensures found.Some? ==> Least(rel, source, found.value) && Last(found.value) == target && |found.value| - 1 <= depth
    ensures found.None? ==> NoWalkWithin(rel, source, target, depth)
  {
    var queue: seq<seq<Id>> := [[source]];
    var visited := {source};
    ghost var best: map<Id, seq<Id>> := map[source := [source]];
    ghost var done: set<Id> := {};
    InitiallySettled(rel, source, target, depth);
    while queue != []
      invariant Settled(rel, source, target, depth, best, done) && Waiting(best, done, queue)
      invariant queue != [] ==> Behind(queue[1..], queue[0])
      invariant visited == best.Keys && best.Keys <= all
      decreases all - done
    {
      var p := queue[0];
      PopWaiting(best, done, queue);
      queue := queue[1..];
      BehindIsAfter(queue, p);
      if |p| - 1 >= depth {
        done := done + {Last(p)};
      } else {
        var callees := CalleesOf(adjacency, Last(p));
        forall v | v in callees ensures (Last(p), v) in rel && v in all {}
        var hit;
        hit, queue, visited, best :=
          ExpandFunction(rel, all, callees, source, target, depth, p, queue, visited, best, done);
        if hit {
          return Some(p + [target]);
        }
        FinishExpanding(rel, source, target, depth, best, done, queue, p);
        done := done + {Last(p)};
      }
      if queue != [] { AfterNextHead(queue, p); }
    }
    forall q | WalkFromTo(rel, q, source, target) ensures |q| - 1 > depth {
      if |q| - 1 <= depth {
        ExhaustedStaysDone(rel, source, target, depth, best, done, q, |q| - 1);
      }
    }
    return None;
  }

  lemma InitiallySettled(rel: Relation, source: Id, target: Id, depth: nat)
    requires source != target
    ensures Settled(rel, source, target, depth, map[source := [source]], {})
    ensures Waiting(map[source := [source]], {}, [[source]])
  {
    forall q | WalkFromTo(rel, q, source, source) ensures AtMost([source], q) {
      if |q| == 1 { assert q == [source]; }
    }
  }

  /** Recording the least walk of a new callee. */
  lemma SettleCallee(rel: Relation, source: Id, target: Id, depth: nat, best: map<Id, seq<Id>>, done: set<Id>,
          p: seq<Id>, v: Id)
    requires Settled(rel, source, target, depth, best, done) && v !in best && v != target
    requires Least(rel, source, p + [v]) && |p| - 1 < depth
    ensures Settled(rel, source, target, depth, best[v := p + [v]], done)
  {
    var next := best[v := p + [v]];
    assert Last(p + [v]) == v;
    forall w | w in next ensures Least(rel, source, next[w]) && Last(next[w]) == w && |next[w]| - 1 <= depth {}
  }

  /** Every callee is visited: the function is done. */
  lemma SettleDone(rel: Relation, source: Id, target: Id, depth: nat, best: map<Id, seq<Id>>, done: set<Id>, u: Id)
    requires Settled(rel, source, target, depth, best, done) && u in best
    requires |best[u]| - 1 < depth ==> forall v: Id :: (u, v) in rel ==> v in best
    ensures Settled(rel, source, target, depth, best, done + {u})
  {}

  ghost predicate OwnCallees(queue: seq<seq<Id>>, p: seq<Id>, callees: seq<Id>) {
    forall x :: x in queue && |x| == |p| + 1 && Init(x) == p ==> Last(x) in callees
  }

  lemma PushOwnCallee(queue: seq<seq<Id>>, p: seq<Id>, callees: seq<Id>, v: Id)
    requires OwnCallees(queue, p, callees)
    ensures OwnCallees(queue + [p + [v]], p, callees + [v])
  {
    assert Last(p + [v]) == v;
  }

  /** The state while p's last function is being expanded. */
  ghost predicate Expanding(
    rel: Relation, source: Id, target: Id, depth: nat, best: map<Id, seq<Id>>, done: set<Id>, queue: seq<seq<Id>>,
    p: seq<Id>)
  {
    && p != [] && |p| - 1 < depth && Last(p) in best && best[Last(p)] == p
    && Settled(rel, source, target, depth, best, done)
    && Waiting(best, done + {Last(p)}, queue)
    && After(queue, p)
  }

  lemma ExpandCallee(
    rel: Relation, source: Id, target: Id, depth: nat, best: map<Id, seq<Id>>, done: set<Id>, queue: seq<seq<Id>>,
    p: seq<Id>,
    earlier: seq<Id>, v: Id)
    requires Expanding(rel, source, target, depth, best, done, queue, p) && OwnCallees(queue, p, earlier)
    requires (Last(p), v) in rel && v !in best && v != target && forall x :: x in earlier ==> x < v
    ensures Expanding(rel, source, target, depth, best[v := p + [v]], done, queue + [p + [v]], p)
    ensures OwnCallees(queue + [p + [v]], p, earlier + [v])
  {
    ExtensionIsLeast(rel, source, target, depth, best, done, queue, p, Last(p), v);
    PushWaiting(best, done + {Last(p)}, queue, p, v);
    SettleCallee(rel, source, target, depth, best, done, p, v);
    PushOwnCallee(queue, p, earlier, v);
  }

  lemma FinishExpanding(
    rel: Relation, source: Id, target: Id, depth: nat, best: map<Id, seq<Id>>, done: set<Id>, queue: seq<seq<Id>>,
    p: seq<Id>)
    requires Expanding(rel, source, target, depth, best, done, queue, p)
    requires forall v: Id :: (Last(p), v) in rel ==> v in best
    ensures Settled(rel, source, target, depth, best, done + {Last(p)})
  {
    SettleDone(rel, source, target, depth, best, done, Last(p));
  }

  method CalleesOf(adjacency: map<Id, set<Id>>, u: Id) returns (callees: seq<Id>)
    ensures forall v: Id :: v in callees <==> u in adjacency && v in adjacency[u]
    ensures Ascending(callees)
  {
    callees := SortedSet(if u in adjacency then adjacency[u] else {});
  }

  /** The loop over the sorted callees of the walk's last function. */
  method ExpandFunction(
    ghost rel: Relation, ghost all: set<Id>, callees: seq<Id>, source: Id, target: Id, ghost depth: nat,
    p: seq<Id>, start: seq<seq<Id>>, known: set<Id>, ghost bestStart: map<Id, seq<Id>>, ghost done: set<Id>)
    returns (hit: bool, queue: seq<seq<Id>>, visited: set<Id>, ghost best: map<Id, seq<Id>>)
    requires Expanding(rel, source, target, depth, bestStart, done, start, p) && OwnCallees(start, p, [])
    requires Ascending(callees) && forall v :: v in callees ==> (Last(p), v) in rel && v in all
    requires known == bestStart.Keys && bestStart.Keys <= all
    ensures hit ==> Least(rel, source, p + [target])
    ensures !hit ==> Expanding(rel, source, target, depth, best, done, queue, p)
    ensures !hit ==> forall v :: v in callees ==> v in best
    ensures visited == best.Keys && best.Keys <= all
  {
    hit, queue, visited, best := false, start, known, bestStart;
    ghost var earlier: seq<Id> := [];
    var i := 0;
    while i < |callees| && !hit
      invariant 0 <= i <= |callees| && visited == best.Keys && best.Keys <= all
      invariant hit ==> Least(rel, source, p + [target])
      invariant !hit ==> Expanding(rel, source, target, depth, best, done, queue, p) && OwnCallees(queue, p, earlier)
      invariant !hit ==> earlier == callees[..i] && forall x :: x in earlier ==> x in best
      decreases |callees| - i, !hit
    {
      var v := callees[i];
      assert v in callees;
      hit, queue, visited, best :=
        VisitCallee(rel, all, source, target, depth, p, v, earlier, queue, visited, best, done);
      earlier := earlier + [v];
      i := i + 1;
    }
  }

  /** One callee: the target ends the search, a new function is recorded and queued. */
  method VisitCallee(
    ghost rel: Relation, ghost all: set<Id>, source: Id, target: Id, ghost depth: nat, p: seq<Id>, v: Id,
    ghost earlier: seq<Id>,
    start: seq<seq<Id>>, known: set<Id>, ghost bestStart: map<Id, seq<Id>>, ghost done: set<Id>)
    returns (hit: bool, queue: seq<seq<Id>>, visited: set<Id>, ghost best: map<Id, seq<Id>>)
    requires Expanding(rel, source, target, depth, bestStart, done, start, p) && OwnCallees(start, p, earlier)
    requires (Last(p), v) in rel && v in all && forall x :: x in earlier ==> x < v
    requires known == bestStart.Keys && bestStart.Keys <= all
    ensures hit ==> Least(rel, source, p + [target])
    ensures !hit ==> Expanding(rel, source, target, depth, best, done, queue, p) && OwnCallees(queue, p, earlier + [v])
    ensures visited == best.Keys && best.Keys <= all && (!hit ==> v in best) && forall x :: x in bestStart ==> x in best
  {
    hit, queue, visited, best := v == target, start, known, bestStart;
    if hit {
      ExtensionIsLeast(rel, source, target, depth, best, done, queue, p, Last(p), v);
    } else if v !in visited {
      ExpandCallee(rel, source, target, depth, best, done, queue, p, earlier, v);
      visited := visited + {v};
      queue := queue + [p + [v]];
      best := best[v := p + [v]];
    }
  }

  /** call_path: invalid depths are refused; otherwise the least bounded call path, or none. */
  method CallPath(ir: SemanticIR, source: Id, target: Id, maxDepth: int) returns (r: Query)
    ensures r.InvalidDepth? <==> !(0 <= maxDepth <= MAX_CALL_DEPTH)
    ensures r.Found? ==> IsAnswer(ir, source, target, maxDepth, IdsOf(r.functions))
    ensures r.UnknownFunction? ==> IsAnswer(ir, source, target, maxDepth, r.ids) && exists id ::
            id in r.ids && id !in OpsById(ir.operations)
    ensures r.NoPath? ==> var ops := OpsById(ir.operations);
              source !in ops || target !in ops ||
                (0 <= maxDepth && NoWalkWithin(CallRel(ops, ir.edges), source, target, maxDepth))
  {
    var ops := OpsById(ir.operations);
    if !(0 <= maxDepth <= MAX_CALL_DEPTH) {
      return InvalidDepth;
    }
    if source !in ops || target !in ops {
      return NoPath;
    }
    ghost var rel := CallRel(ops, ir.edges);
    if source == target {
      TrivialIsLeast(rel, source);
      assert IdsOf([ops[source]]) == [source];
      return Found([ops[source]]);
    }
    var adjacency := Adjacency(ops, ir.edges);
    ghost var all := {source} + (set e | e in ir.edges :: e.target);
    var found := Search(rel, all, adjacency, source, target, maxDepth);
    if found.None? {
      return NoPath;
    }
    r := Resolve(ops, found.value);
  }

  function IdsOf(functions: seq<Op>): (ids: seq<Id>)
    ensures |ids| == |functions| && forall i :: 0 <= i < |ids| ==> ids[i] == functions[i].id
  {
    seq(|functions|, i requires 0 <= i < |functions| => functions[i].id)
  }

  /** tuple(self._operations[item] for item in path), where a lookup may fail. */
  method Resolve(ops: map<Id, Op>, ids: seq<Id>) returns (r: Query)
    requires forall id :: id in ops ==> ops[id].id == id
    ensures r.Found? || r.UnknownFunction?
    ensures r.Found? ==> IdsOf(r.functions) == ids
    ensures r.UnknownFunction? ==> r.ids == ids && exists id :: id in ids && id !in ops
  {
    if forall i :: 0 <= i < |ids| ==> ids[i] in ops {
      var functions := Functions(ops, ids);
      assert IdsOf(functions) == ids;
      r := Found(functions);
    } else {
      ghost var i :| 0 <= i < |ids| && ids[i] !in ops;
      assert ids[i] in ids;
      r := UnknownFunction(ids);
    }
  }

  ghost predicate IsAnswer(ir: SemanticIR, source: Id, target: Id, maxDepth: int, ids: seq<Id>) {
    && Least(CallRel(OpsById(ir.operations), ir.edges), source, ids)
    && ids != [] && Last(ids) == target && |ids| - 1 <= maxDepth
  }

  lemma TrivialIsLeast(rel: Relation, source: Id)
    ensures Least(rel, source, [source])
  {
    forall q | WalkFromTo(rel, q, source, source) ensures AtMost([source], q) {
      if |q| == 1 { assert q == [source]; }
    }
  }

  function Functions(ops: map<Id, Op>, ids: seq<Id>): (functions: seq<Op>)
    requires forall id :: id in ids ==> id in ops
    ensures |functions| == |ids| && forall i :: 0 <= i < |ids| ==> functions[i] == ops[ids[i]]
  {
    if ids == [] then [] else [ops[ids[0]]] + Functions(ops, ids[1..])
  }

  /** There is only one least walk to a function: the answer is determined. */
  lemma LeastIsUnique(rel: Relation, source: Id, p: seq<Id>, q: seq<Id>)
    requires Least(rel, source, p) && Least(rel, source, q) && Last(p) == Last(q)
    ensures p == q
  {
    if p != q {
      assert AtMost(p, q) && AtMost(q, p);
      Transitive(p, q, p);
      LexIrreflexive(p);
    }
  }

  /** On a well-linked IR, where call edges end in known operations, no lookup can fail. */
  lemma LinkedPathsAreKnown(ir: SemanticIR, source: Id, target: Id, maxDepth: int, ids: seq<Id>)
    requires IsAnswer(ir, source, target, maxDepth, ids) && source in OpsById(ir.operations)
    requires forall e :: e in ir.edges && e.kind.Calls? ==> e.target in OpsById(ir.operations)
    ensures forall id :: id in ids ==> id in OpsById(ir.operations)
  {
    var rel := CallRel(OpsById(ir.operations), ir.edges);
    forall k | 0 <= k < |ids| ensures ids[k] in OpsById(ir.operations) {
      if k > 0 {
        var i := k - 1;
        assert (ids[i], ids[k]) in rel;
      }
    }
  }

  /** One function calls another: a linked call stands in its scope. */
  ghost predicate CallsInto(ir: SemanticIR, u: Id, v: Id) {
    exists e, call :: e in ir.edges && call in ir.operations && e.kind == EdgeKind.Calls && e.source == call.id &&
                      call.scope == u && e.target == v
  }

  /** The steps of a call path, in terms of the program. */
  lemma CallStepsRead(ir: SemanticIR, u: Id, v: Id)
    requires UniqueIds(ir.operations)
    ensures (u, v) in CallRel(OpsById(ir.operations), ir.edges) <==> CallsInto(ir, u, v)
  {
    var ops := OpsById(ir.operations);
    if (u, v) in CallRel(ops, ir.edges) {
      var e :| e in ir.edges && e.kind.Calls? && e.source in ops && (ops[e.source].scope, e.target) == (u, v);
      assert ops[e.source] in ir.operations;
    }
    if e, call :| e in ir.edges && call in ir.operations && e.kind == EdgeKind.Calls && e.source == call.id &&
                  call.scope == u && e.target == v {
      UniqueLookup(ir.operations, call);
    }
  }
}
