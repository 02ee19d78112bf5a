/** Reading a small program off its lists of operations and edges. */
module Programs {
  import opened Sequences
  import opened Walks
  import opened Ir
  import opened ControlFlow

  /** The ids are 1, 2, ... in the order of the list. */
  ghost predicate Numbered(ops: seq<Op>) {
    forall i :: 0 <= i < |ops| ==> ops[i].id == i + 1
  }

  lemma NumberedIds(ops: seq<Op>)
    requires Numbered(ops)
    ensures UniqueIds(ops)
  {}

  lemma NumberedOp(ops: seq<Op>, m: map<Id, Op>, id: Id)
    requires Numbered(ops) && UniqueIds(ops) && m == OpsById(ops)
    ensures id in m <==> 1 <= id <= |ops|
    ensures id in m ==> m[id] == ops[id - 1]
  {
    if 1 <= id <= |ops| {
      UniqueLookup(ops, ops[id - 1]);
    }
    if id in m {
      assert m[id] in ops && m[id].id == id;
      var i :| 0 <= i < |ops| && ops[i] == m[id];
    }
  }

  /** Looking up the operations of a numbered program. */
  lemma NumberedOps(ops: seq<Op>)
    requires Numbered(ops)
    ensures UniqueIds(ops) && LooksUp(OpsById(ops), ops)
  {
    NumberedIds(ops);
    LookupOf(ops, OpsById(ops));
  }

  ghost predicate LooksUp(m: map<Id, Op>, ops: seq<Op>) {
    forall id: Id :: (id in m <==> 1 <= id <= |ops|) && (id in m ==> m[id] == ops[id - 1])
  }

  lemma LookupOf(ops: seq<Op>, m: map<Id, Op>)
    requires Numbered(ops) && UniqueIds(ops) && m == OpsById(ops)
    ensures LooksUp(m, ops)
  {
    forall id: Id ensures (id in m <==> 1 <= id <= |ops|) && (id in m ==> m[id] == ops[id - 1]) {
      NumberedOp(ops, m, id);
    }
  }

  /** Every edge is control flow between listed operations of one scope. */
  ghost predicate FlowsInside(ops: seq<Op>, edges: seq<Edge>) {
    forall e :: e in edges ==>
      && IsControlFlow(e.kind) && 1 <= e.source <= |ops| && 1 <= e.target <= |ops|
      && ops[e.source - 1].scope == ops[e.target - 1].scope
  }

  /** The relation has exactly the pairs of the edges. */
  ghost predicate PairsUp(r: Relation, edges: seq<Edge>) {
    && (forall e :: e in edges ==> (e.source, e.target) in r)
    && (forall u, v :: (u, v) in r ==> exists e :: e in edges && e.source == u && e.target == v)
  }

  /** The arcs are exactly those of the edges. */
  ghost predicate ArcsUp(arcs: set<Arc>, edges: seq<Edge>) {
    && (forall e :: e in edges ==> ArcOf(e) in arcs)
    && (forall a :: a in arcs ==> exists e :: e in edges && ArcOf(e) == a)
  }

  /** The unfiltered graph of such a program has exactly its operations and edges. */
  lemma NumberedGraph(ir: SemanticIR, g: Graph)
    requires Numbered(ir.operations) && FlowsInside(ir.operations, ir.edges) && g == GraphOfIr(ir, {})
    ensures UniqueIds(ir.operations) && g.ops == OpsById(ir.operations)
    ensures LooksUp(g.ops, ir.operations) && PairsUp(Rel(g), ir.edges)
  {
    NumberedOps(ir.operations);
    FilterAll((op: Op) => Kept(op, {}), ir.operations);
    assert KeptOps(ir.operations, {}) == ir.operations;
    AllAdmitted(ir.operations, ir.edges, g.ops);
    FlowRel(g.ops, EdgesAmong(ir.operations, ir.edges), ir.edges, g);
  }

  lemma NumberedArcs(ir: SemanticIR, g: Graph)
    requires Numbered(ir.operations) && FlowsInside(ir.operations, ir.edges) && g == GraphOfIr(ir, {})
    ensures ArcsUp(g.arcs, ir.edges)
  {
    NumberedOps(ir.operations);
    FilterAll((op: Op) => Kept(op, {}), ir.operations);
    AllAdmitted(ir.operations, ir.edges, g.ops);
    FlowRel(g.ops, EdgesAmong(ir.operations, ir.edges), ir.edges, g);
  }

  lemma AllAdmitted(ops: seq<Op>, edges: seq<Edge>, m: map<Id, Op>)
    requires Numbered(ops) && FlowsInside(ops, edges) && LooksUp(m, ops)
    ensures forall e :: e in edges ==> e in EdgesAmong(ops, edges) && Admitted(m, e)
  {
    forall e | e in edges ensures e in EdgesAmong(ops, edges) && Admitted(m, e) {
      EdgeIsAmong(ops, edges, e);
    }
  }

  lemma EdgeIsAmong(ops: seq<Op>, edges: seq<Edge>, e: Edge)
    requires Numbered(ops) && e in edges && 1 <= e.source <= |ops| && 1 <= e.target <= |ops|
    ensures e in EdgesAmong(ops, edges)
  {
    assert ops[e.source - 1] in ops && ops[e.target - 1] in ops;
    assert ops[e.source - 1].id == e.source && ops[e.target - 1].id == e.target;
  }

  lemma FlowRel(m: map<Id, Op>, admitted: seq<Edge>, edges: seq<Edge>, g: Graph)
    requires g == Graph(m, set e | e in admitted && Admitted(m, e) :: ArcOf(e))
    requires (forall e :: e in edges ==> e in admitted && Admitted(m, e)) && forall e :: e in admitted ==> e in edges
    ensures PairsUp(Rel(g), edges) && ArcsUp(g.arcs, edges)
  {
    forall e | e in edges ensures (e.source, e.target) in Rel(g) {
      assert ArcOf(e) in g.arcs;
    }
    forall u, v | (u, v) in Rel(g) ensures exists e :: e in edges && e.source == u && e.target == v {
      var a :| a in g.arcs && (a.source, a.target) == (u, v);
      var e :| e in admitted && Admitted(m, e) && ArcOf(e) == a;
    }
  }

  lemma {:induction false} FilterAll<T(!new)>(f: T -> bool, s: seq<T>)
    requires forall x :: x in s ==> f(x)
    ensures Filter(f, s) == s
  {
    if s != [] {
      assert s[0] in s;
      FilterAll(f, s[1..]);
    }
  }

  /** The same for a numbered program whose edges are of all kinds: the arcs are its control flow. */
  lemma NumberedFlow(ir: SemanticIR, g: Graph)
    requires Numbered(ir.operations) && g == GraphOfIr(ir, {})
    ensures UniqueIds(ir.operations) && g.ops == OpsById(ir.operations) && LooksUp(g.ops, ir.operations)
    ensures forall e :: e in ir.edges && Admitted(g.ops, e) ==> ArcOf(e) in g.arcs
    ensures forall a :: a in g.arcs ==> exists e :: e in ir.edges && Admitted(g.ops, e) && ArcOf(e) == a
  {
    NumberedOps(ir.operations);
    FilterAll((op: Op) => Kept(op, {}), ir.operations);
    assert KeptOps(ir.operations, {}) == ir.operations;
    forall e | e in ir.edges && Admitted(g.ops, e) ensures e in EdgesAmong(ir.operations, ir.edges) {
      EdgeIsAmong(ir.operations, ir.edges, e);
    }
    FlowArcs(g.ops, EdgesAmong(ir.operations, ir.edges), ir.edges, g);
  }

  lemma FlowArcs(m: map<Id, Op>, among: seq<Edge>, edges: seq<Edge>, g: Graph)
    requires g == Graph(m, set e | e in among && Admitted(m, e) :: ArcOf(e))
    requires (forall e :: e in edges && Admitted(m, e) ==> e in among) && forall e :: e in among ==> e in edges
    ensures forall e :: e in edges && Admitted(m, e) ==> ArcOf(e) in g.arcs
    ensures forall a :: a in g.arcs ==> exists e :: e in edges && Admitted(m, e) && ArcOf(e) == a
  {}
}
