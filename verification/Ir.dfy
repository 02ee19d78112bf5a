/** The normalized semantic IR: operations and typed edges between them.

    Identifiers are natural numbers.  Only equality, order and emptiness of the
    repository's id strings are ever observed; 0 stands for the empty string and < for
    string order. */
module Ir {
  import opened Sequences

  type Id = nat
  const NO_ID: Id := 0

  datatype OpKind =
    | Function | Parameter | Assign | Update | Call | Branch | Loop | Return | Raise
    | Continue | Break | Defer | Spawn | Send | Receive | Select | Emit | Unknown

  datatype EdgeKind =
    | Contains | Next | TrueBranch | FalseBranch | Body | LoopBack | LoopExit
    | Calls | DataDependency | Synchronizes

  /** One normalized operation.  position is the rank of (file, line, column) and line the line
      number; language is in lower case; host is the host_operation attribute; resultTargets and
      calls are the attributes of that name. */
  datatype Op = Op(
    id: Id, kind: OpKind, language: string, scope: Id, position: nat, line: nat,
    target: string, value: string,
    host: Id, resultTargets: seq<string>, calls: seq<string>)

  datatype Edge = Edge(source: Id, target: Id, kind: EdgeKind, attributes: string)

  datatype SemanticIR = SemanticIR(operations: seq<Op>, edges: seq<Edge>)

  predicate IsControlFlow(kind: EdgeKind) {
    kind.Next? || kind.TrueBranch? || kind.FalseBranch? || kind.Body? || kind.LoopBack? || kind.LoopExit?
  }

  /** {operation.id: operation for operation in ops}: the last operation with an id wins. */
  function OpsById(ops: seq<Op>): (m: map<Id, Op>)
    ensures forall id :: id in m ==> m[id] in ops && m[id].id == id
    ensures forall op :: op in ops ==> op.id in m
  {
    if ops == [] then map[]
    else
      assert ops == ops[..|ops| - 1] + [ops[|ops| - 1]];
      OpsById(ops[..|ops| - 1])[ops[|ops| - 1].id := ops[|ops| - 1]]
  }

  /** Ids identify operations: frontends derive them from content and merging drops repeats. */
  ghost predicate UniqueIds(ops: seq<Op>) {
    forall i, j :: 0 <= i < |ops| && 0 <= j < |ops| && ops[i].id == ops[j].id ==> i == j
  }

  lemma UniqueLookup(ops: seq<Op>, op: Op)
    requires UniqueIds(ops) && op in ops
    ensures op.id in OpsById(ops) && OpsById(ops)[op.id] == op
  {
    var other := OpsById(ops)[op.id];
    assert other in ops && other.id == op.id;
    var i :| 0 <= i < |ops| && ops[i] == op;
    var j :| 0 <= j < |ops| && ops[j] == other;
  }

  /** The order of _operation_order: (file, line, column, id). */
  predicate OpLeq(a: Op, b: Op) {
    a.position < b.position || (a.position == b.position && a.id <= b.id)
  }

  /** Membership in a language filter; the empty filter keeps everything. */
  predicate Kept(op: Op, languages: set<string>) {
    languages == {} || op.language in languages
  }

  function KeptOps(ops: seq<Op>, languages: set<string>): (r: seq<Op>)
    ensures forall op :: op in r <==> op in ops && Kept(op, languages)
  {
    Filter((op: Op) => Kept(op, languages), ops)
  }

  lemma {:induction false} FilterKeepsUnique(f: Op -> bool, ops: seq<Op>)
    requires UniqueIds(ops)
    ensures UniqueIds(Filter(f, ops))
    decreases |ops|
  {
    if ops != [] {
      assert UniqueIds(ops[1..]) by {
        assert forall i :: 0 <= i < |ops| - 1 ==> ops[1..][i] == ops[i + 1];
      }
      FilterKeepsUnique(f, ops[1..]);
      var rest := Filter(f, ops[1..]);
      forall i | 0 <= i < |rest| ensures rest[i].id != ops[0].id {
        assert rest[i] in rest && rest[i] in ops[1..];
        var j :| 0 <= j < |ops[1..]| && ops[1..][j] == rest[i];
        assert ops[j + 1] == rest[i];
      }
    }
  }

  function SortOps(ops: seq<Op>): (r: seq<Op>)
    ensures forall op :: op in r <==> op in ops
    ensures |r| == |ops|
  {
    SortKeepsElements(OpLeq, ops);
    Sort(OpLeq, ops)
  }

  lemma SortOpsInOrder(ops: seq<Op>)
    ensures SortedBy(OpLeq, SortOps(ops))
  {
    SortIsSorted(OpLeq, ops);
  }

  lemma SortOpsKeepsUnique(ops: seq<Op>)
    requires UniqueIds(ops)
    ensures UniqueIds(SortOps(ops))
  {
    var r := SortOps(ops);
    forall i, j | 0 <= i < j < |r| ensures r[i].id != r[j].id {
      if r[i].id == r[j].id {
        UniqueLookup(ops, r[i]);
        UniqueLookup(ops, r[j]);
        TwiceInSeq(r, i, j);
        MultiplicityAtMostOne(ops, r[i]);
      }
    }
  }

  lemma TwiceInSeq(s: seq<Op>, i: nat, j: nat)
    requires i < j < |s| && s[i] == s[j]
    ensures multiset(s)[s[i]] >= 2
  {
    assert s == s[..j] + [s[j]] + s[j + 1..];
    assert s[i] in s[..j];
  }

  lemma MultiplicityAtMostOne(ops: seq<Op>, op: Op)
    requires UniqueIds(ops)
    ensures multiset(ops)[op] <= 1
  {
    if op in ops {
      var i :| 0 <= i < |ops| && ops[i] == op;
      assert ops == ops[..i] + [op] + ops[i + 1..];
      assert op !in ops[..i] && op !in ops[i + 1..];
    }
  }
}
