/** The bounded project inventory (build_project_inventory, smartbench/engine/project_reader.py):
    facts, scope groups, their order, and the selection under a count and a size limit. */
module Inventory {
  import opened Sequences
  import opened Multisets
  import opened Ir
  import opened ResourceLifecycle
  import opened ProjectReader
  import opened Bisection
  import opened RoundRobin

  /** A fact with the scope it belongs to and where its operation stands.  file is the rank of the
      path among all paths. */
  datatype Item = Item(subject: Id, file: nat, position: nat, fact: Fact)

  /** The facts of one scope, in source order. */
  type Group = seq<Item>

  // ---------- facts ----------

  /** The fact an operation contributes, if any. */
  function ItemsAt(ops: map<Id, Op>, fileOf: Op -> nat, factId: Op -> Id, op: Op): seq<Item> {
    if op.kind.Call? && op.resultTargets != [] then
      [Item(op.scope, fileOf(op), op.position, Fact(factId(op), ResultCall, op.id, IsPrimaryResultCall(ops, op)))]
    else if op.kind.Defer? then
      [Item(op.scope, fileOf(op), op.position, Fact(factId(op), CleanupRegistration, op.id, false))]
    else []
  }

  ghost function ItemsOf(ops: map<Id, Op>, fileOf: Op -> nat, factId: Op -> Id, ordered: seq<Op>): seq<Item>
    decreases |ordered|
  {
    if ordered == [] then []
    else ItemsOf(ops, fileOf, factId, ordered[..|ordered| - 1]) + ItemsAt(ops, fileOf, factId, ordered[|ordered| - 1])
  }

  method ListItems(ops: map<Id, Op>, fileOf: Op -> nat, factId: Op -> Id, ordered: seq<Op>) returns (items: seq<Item>)
    ensures items == ItemsOf(ops, fileOf, factId, ordered)
  {
    items := [];
    for i := 0 to |ordered|
      invariant items == ItemsOf(ops, fileOf, factId, ordered[..i])
    {
      assert ordered[..i + 1][..i] == ordered[..i];
      items := items + ItemsAt(ops, fileOf, factId, ordered[i]);
    }
    assert ordered[..|ordered|] == ordered;
  }

  /** The loop over sorted(ir.operations). */
  method CollectItems(ir: SemanticIR, fileOf: Op -> nat, factId: Op -> Id) returns (items: seq<Item>)
    ensures items == ItemsOf(OpsById(ir.operations), fileOf, factId, SortOps(ir.operations))
  {
    items := ListItems(OpsById(ir.operations), fileOf, factId, SortOps(ir.operations));
  }

  lemma {:induction false} ItemsCome(ops: map<Id, Op>, fileOf: Op -> nat, factId: Op -> Id, ordered: seq<Op>, x: Item)
    ensures x in ItemsOf(ops, fileOf, factId, ordered) <==> exists op ::
            op in ordered && x in ItemsAt(ops, fileOf, factId, op)
    decreases |ordered|
  {
    if ordered != [] {
      SplitLast(ordered);
      ItemsCome(ops, fileOf, factId, ordered[..|ordered| - 1], x);
    }
  }

  ghost predicate Injective(factId: Op -> Id, ops: seq<Op>) {
    forall a, b :: a in ops && b in ops && factId(a) == factId(b) ==> a == b
  }

  function FactsOf(items: seq<Item>): seq<Fact> {
    MapSeq((x: Item) => x.fact, items)
  }

  /** With fact ids that tell operations apart, an inventory is content-addressed, whatever part
      of the items was selected; this is what the resolver and the validator rely on. */
  lemma InventoryIsContentAddressed(ops: map<Id, Op>, fileOf: Op -> nat, factId: Op -> Id, ordered: seq<Op>,
          selected: seq<Item>)
    requires Injective(factId, ordered)
    requires forall x :: x in selected ==> x in ItemsOf(ops, fileOf, factId, ordered)
    ensures ContentAddressed(FactsOf(selected))
  {
    forall f, h | f in FactsOf(selected) && h in FactsOf(selected) && f.id == h.id ensures f == h {
      var x := ItemWithFact(selected, f);
      var y := ItemWithFact(selected, h);
      var a := OriginOf(ops, fileOf, factId, ordered, x);
      var b := OriginOf(ops, fileOf, factId, ordered, y);
    }
  }

  lemma OriginOf(ops: map<Id, Op>, fileOf: Op -> nat, factId: Op -> Id, ordered: seq<Op>, x: Item) returns (op: Op)
    requires x in ItemsOf(ops, fileOf, factId, ordered)
    ensures op in ordered && ItemsAt(ops, fileOf, factId, op) == [x] && x.fact.id == factId(op)
  {
    ItemsCome(ops, fileOf, factId, ordered, x);
    op :| op in ordered && x in ItemsAt(ops, fileOf, factId, op);
  }

  lemma ItemWithFact(items: seq<Item>, f: Fact) returns (x: Item)
    requires f in FactsOf(items)
    ensures x in items && x.fact == f
  {
    var i :| 0 <= i < |FactsOf(items)| && FactsOf(items)[i] == f;
    x := items[i];
  }

  // ---------- scopes ----------

  function OfSubject(items: seq<Item>, subject: Id): Group
    decreases |items|
  {
    if items == [] then []
    else
      OfSubject(items[..|items| - 1], subject) +
      (if items[|items| - 1].subject == subject then [items[|items| - 1]] else [])
  }

  ghost predicate IsScope(items: seq<Item>, g: Group) {
    g != [] && g == OfSubject(items, g[0].subject)
  }

  /** Whole scopes of items, each at most once. */
  ghost predicate ScopeGroups(items: seq<Item>, groups: multiset<Group>) {
    Once(groups) && forall g: Group :: g in groups ==> IsScope(items, g)
  }

  function Flatten(groups: seq<Group>): seq<Item>
    decreases |groups|
  {
    if groups == [] then [] else Flatten(groups[..|groups| - 1]) + groups[|groups| - 1]
  }

  lemma {:induction false} OfSubjectIsUniform(items: seq<Item>, subject: Id)
    ensures forall x :: x in OfSubject(items, subject) <==> x in items && x.subject == subject
    decreases |items|
  {
    if items != [] {
      SplitLast(items);
      OfSubjectIsUniform(items[..|items| - 1], subject);
    }
  }

  lemma {:induction false} OfSubjectAppend(a: seq<Item>, b: seq<Item>, subject: Id)
    ensures OfSubject(a + b, subject) == OfSubject(a, subject) + OfSubject(b, subject)
    decreases |b|
  {
    if b == [] {
      assert a + b == a;
    } else {
      assert (a + b)[..|a + b| - 1] == a + b[..|b| - 1];
      OfSubjectAppend(a, b[..|b| - 1], subject);
    }
  }

  lemma {:induction false} OfOwnSubject(g: Group, subject: Id)
    requires forall x :: x in g ==> x.subject == subject
    ensures OfSubject(g, subject) == g
    decreases |g|
  {
    if g != [] {
      SplitLast(g);
      OfOwnSubject(g[..|g| - 1], subject);
    }
  }

  lemma {:induction false} OfOtherSubject(g: Group, subject: Id)
    requires forall x :: x in g ==> x.subject != subject
    ensures OfSubject(g, subject) == []
    decreases |g|
  {
    if g != [] {
      SplitLast(g);
      OfOtherSubject(g[..|g| - 1], subject);
    }
  }

  /** Every scope appears entirely or not at all. */
  ghost predicate WholeScopes(items: seq<Item>, selected: seq<Item>) {
    forall subject :: OfSubject(selected, subject) == [] || OfSubject(selected, subject) == OfSubject(items, subject)
  }

  lemma {:induction false} FlattenedSubject(items: seq<Item>, groups: seq<Group>, subject: Id)
    requires ScopeGroups(items, multiset(groups))
    ensures OfSubject(items, subject) in groups ==> OfSubject(Flatten(groups), subject) == OfSubject(items, subject)
    ensures OfSubject(items, subject) !in groups ==> OfSubject(Flatten(groups), subject) == []
    decreases |groups|
  {
    if groups != [] {
      SplitLast(groups);
      var rest, g := groups[..|groups| - 1], groups[|groups| - 1];
      OnceSplits(groups);
      assert IsScope(items, g);
      forall h: Group | h in multiset(rest) ensures IsScope(items, h) { assert h in groups; }
      FlattenedSubject(items, rest, subject);
      OfSubjectAppend(Flatten(rest), g, subject);
      OfSubjectIsUniform(items, g[0].subject);
      if g[0].subject == subject {
        OfOwnSubject(g, subject);
      } else {
        OfOtherSubject(g, subject);
        if OfSubject(items, subject) == g { OfSubjectIsUniform(items, subject); }
      }
    }
  }

  lemma FlattenKeepsScopesWhole(items: seq<Item>, groups: seq<Group>)
    requires ScopeGroups(items, multiset(groups))
    ensures WholeScopes(items, Flatten(groups))
  {
    forall subject ensures OfSubject(Flatten(groups), subject) == [] ||
      OfSubject(Flatten(groups), subject) == OfSubject(items, subject) {
      FlattenedSubject(items, groups, subject);
    }
  }

  lemma FewerGroups(items: seq<Item>, groups: multiset<Group>, all: multiset<Group>)
    requires ScopeGroups(items, all) && groups <= all
    ensures ScopeGroups(items, groups)
  {
    forall g: Group | g in groups ensures groups[g] == 1 && IsScope(items, g) {
      assert g in all;
    }
  }

  /** The scopes of the facts, in the order in which they first occur. */
  function Subjects(items: seq<Item>): seq<Id>
    decreases |items|
  {
    if items == [] then []
    else
      var before, subject := Subjects(items[..|items| - 1]), items[|items| - 1].subject;
      if subject in before then before else before + [subject]
  }

  function GroupsFor(items: seq<Item>, subjects: seq<Id>): seq<Group>
    decreases |subjects|
  {
    if subjects == [] then []
    else GroupsFor(items, subjects[..|subjects| - 1]) + [OfSubject(items, subjects[|subjects| - 1])]
  }

  /** All whole scopes. */
  function ScopesOf(items: seq<Item>): seq<Group> {
    GroupsFor(items, Subjects(items))
  }

  lemma {:induction false} SubjectsAre(items: seq<Item>)
    ensures Distinct(Subjects(items)) && forall s :: s in Subjects(items) <==> exists x :: x in items && x.subject == s
    decreases |items|
  {
    if items != [] {
      SplitLast(items);
      SubjectsAre(items[..|items| - 1]);
    }
  }

  lemma {:induction false} GroupsForAre(items: seq<Item>, subjects: seq<Id>)
    ensures |GroupsFor(items, subjects)| == |subjects|
    ensures forall k :: 0 <= k < |subjects| ==> GroupsFor(items, subjects)[k] == OfSubject(items, subjects[k])
    decreases |subjects|
  {
    if subjects != [] { GroupsForAre(items, subjects[..|subjects| - 1]); }
  }

  /** The groups are whole scopes, each once, and every fact is in one. */
  lemma ScopesAreWhole(items: seq<Item>)
    ensures ScopeGroups(items, multiset(ScopesOf(items)))
    ensures forall x :: x in items ==> OfSubject(items, x.subject) in ScopesOf(items)
  {
    SubjectsAre(items);
    GroupsForAre(items, Subjects(items));
    GroupsAreScopes(items, Subjects(items), ScopesOf(items));
  }

  lemma GroupsAreScopes(items: seq<Item>, subjects: seq<Id>, groups: seq<Group>)
    requires Distinct(subjects) && forall s :: s in subjects <==> exists x :: x in items && x.subject == s
    requires |groups| == |subjects| && forall k :: 0 <= k < |subjects| ==> groups[k] == OfSubject(items, subjects[k])
    ensures ScopeGroups(items, multiset(groups))
    ensures forall x :: x in items ==> OfSubject(items, x.subject) in groups
  {
    forall k | 0 <= k < |subjects| ensures groups[k] != [] && groups[k][0].subject == subjects[k] {
      assert subjects[k] in subjects;
      OfSubjectIsUniform(items, subjects[k]);
      var x :| x in items && x.subject == subjects[k];
      assert x in groups[k] && groups[k][0] in groups[k];
    }
    assert forall g :: g in groups ==> IsScope(items, g);
    DistinctIsOnce(groups);
    forall x | x in items ensures OfSubject(items, x.subject) in groups {
      assert x.subject in subjects;
      var k :| 0 <= k < |subjects| && subjects[k] == x.subject;
      assert groups[k] in groups;
    }
  }

  /** The scope_facts dictionary and its insertion order. */
  ghost predicate Tabled(items: seq<Item>, keys: seq<Id>, table: map<Id, Group>) {
    keys == Subjects(items) && SetOf(keys) == table.Keys && forall k :: k in table ==> table[k] == OfSubject(items, k)
  }

  lemma TableOneMore(items: seq<Item>, keys: seq<Id>, table: map<Id, Group>, x: Item)
    requires Tabled(items, keys, table)
    ensures Tabled(items + [x], if x.subject in table then keys else keys + [x.subject],
                   table[x.subject := (if x.subject in table then table[x.subject] else []) + [x]])
  {
    assert (items + [x])[..|items|] == items;
    if x.subject !in table { SubjectWithoutItems(items, x.subject); }
  }

  lemma SubjectWithoutItems(items: seq<Item>, subject: Id)
    requires subject !in Subjects(items)
    ensures OfSubject(items, subject) == []
  {
    SubjectsAre(items);
    OfOtherSubject(items, subject);
  }

  /** The loop that fills scope_facts, and its values. */
  method GroupByScope(items: seq<Item>) returns (groups: seq<Group>)
    ensures groups == ScopesOf(items)
  {
    var keys: seq<Id>, table: map<Id, Group> := [], map[];
    for i := 0 to |items|
      invariant Tabled(items[..i], keys, table)
    {
      assert items[..i + 1] == items[..i] + [items[i]];
      TableOneMore(items[..i], keys, table, items[i]);
      var subject := items[i].subject;
      if subject !in table {
        keys := keys + [subject];
        table := table[subject := []];
      }
      table := table[subject := table[subject] + [items[i]]];
    }
    assert items[..|items|] == items;
    groups := TableValues(items, keys, table);
  }

  /** tuple(scope_facts.values()) */
  method TableValues(ghost items: seq<Item>, keys: seq<Id>, table: map<Id, Group>) returns (groups: seq<Group>)
    requires SetOf(keys) == table.Keys && forall k :: k in table ==> table[k] == OfSubject(items, k)
    ensures groups == GroupsFor(items, keys)
  {
    groups := [];
    for i := 0 to |keys|
      invariant groups == GroupsFor(items, keys[..i])
    {
      assert keys[i] in SetOf(keys) && keys[..i + 1][..i] == keys[..i];
      groups := groups + [table[keys[i]]];
    }
    assert keys[..|keys|] == keys;
  }
}
