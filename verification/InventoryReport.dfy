/** The facts of an inventory in terms of the program alone. */
module InventoryReport {
  import opened Sequences
  import opened Ir
  import opened ControlFlow
  import opened ResourceLifecycle
  import opened LifecycleReport
  import opened ProjectReader
  import opened ReaderTheorems
  import opened Inventory
  import opened InventoryOrder

  /** The fact of an operation: a call with result targets, primary when an assignment takes its results as its
      first call, or a registered cleanup, never primary. */
  ghost predicate FactAbout(ir: SemanticIR, op: Op, f: Fact) {
    && f.operation == op.id
    && (op.kind == Call || op.kind == Defer)
    && (op.kind == Call ==>
          op.resultTargets != [] && f.role == ResultCall && (f.primary <==> TakenByAssignment(ir, op)))
    && (op.kind == Defer ==> f.role == CleanupRegistration && !f.primary)
  }

  lemma PrimaryRead(ir: SemanticIR, op: Op)
    requires UniqueIds(ir.operations) && op.kind == Call && op.resultTargets != []
    ensures IsPrimaryResultCall(OpsById(ir.operations), op) <==> TakenByAssignment(ir, op)
  {
    var ops := OpsById(ir.operations);
    if h :| h in ir.operations && h.id == op.host && h.kind == Assign && h.calls != [] && h.calls[0] == op.target {
      UniqueLookup(ir.operations, h);
    }
  }

  /** The inventory before selection states exactly one fact for each such operation. */
  lemma FactsRead(ir: SemanticIR, fileOf: Op -> nat, factId: Op -> Id, x: Item)
    requires UniqueIds(ir.operations)
    ensures x in ItemsOf(OpsById(ir.operations), fileOf, factId, SortOps(ir.operations)) <==> exists op ::
            && op in ir.operations && FactAbout(ir, op, x.fact) && x.fact.id == factId(op)
            && x.subject == op.scope && x.file == fileOf(op) && x.position == op.position
  {
    var ops := OpsById(ir.operations);
    ItemsCome(ops, fileOf, factId, SortOps(ir.operations), x);
    forall op | op in ir.operations
      ensures x in ItemsAt(ops, fileOf, factId, op) <==>
              && FactAbout(ir, op, x.fact) && x.fact.id == factId(op)
              && x.subject == op.scope && x.file == fileOf(op) && x.position == op.position
    {
      FactRead(ir, fileOf, factId, op, x);
    }
  }

  lemma FactRead(ir: SemanticIR, fileOf: Op -> nat, factId: Op -> Id, op: Op, x: Item)
    requires UniqueIds(ir.operations)
    ensures x in ItemsAt(OpsById(ir.operations), fileOf, factId, op) <==>
            && FactAbout(ir, op, x.fact) && x.fact.id == factId(op)
            && x.subject == op.scope && x.file == fileOf(op) && x.position == op.position
  {
    if op.kind == Call && op.resultTargets != [] { PrimaryRead(ir, op); }
  }

  /** Facts come in the order of the source, one for an operation. */
  ghost predicate ComesBefore(x: Item, y: Item) {
    x.position < y.position || (x.position == y.position && x.fact.operation < y.fact.operation)
  }

  ghost predicate InTurn(items: seq<Item>) {
    forall i, j :: 0 <= i < j < |items| ==> ComesBefore(items[i], items[j])
  }

  lemma {:induction false} ItemsInTurn(ops: map<Id, Op>, fileOf: Op -> nat, factId: Op -> Id, ordered: seq<Op>)
    requires SortedBy(OpLeq, ordered) && UniqueIds(ordered)
    ensures InTurn(ItemsOf(ops, fileOf, factId, ordered))
    decreases |ordered|
  {
    if ordered != [] {
      var n := |ordered| - 1;
      var before, last := ItemsOf(ops, fileOf, factId, ordered[..n]), ItemsAt(ops, fileOf, factId, ordered[n]);
      ItemsInTurn(ops, fileOf, factId, ordered[..n]);
      forall x, y | x in before && y in last ensures ComesBefore(x, y) {
        EarlierItem(ops, fileOf, factId, ordered, n, x, y);
      }
      JoinOne(before, last);
    }
  }

  lemma EarlierItem(
        ops: map<Id, Op>, fileOf: Op -> nat, factId: Op -> Id, ordered: seq<Op>, n: nat, x: Item, y: Item)
    requires SortedBy(OpLeq, ordered) && UniqueIds(ordered) && n < |ordered|
    requires x in ItemsOf(ops, fileOf, factId, ordered[..n]) && y in ItemsAt(ops, fileOf, factId, ordered[n])
    ensures ComesBefore(x, y)
  {
    ItemsCome(ops, fileOf, factId, ordered[..n], x);
    var op :| op in ordered[..n] && x in ItemsAt(ops, fileOf, factId, op);
    var i :| 0 <= i < n && ordered[i] == op;
    assert OpLeq(ordered[i], ordered[n]) && ordered[i].id != ordered[n].id;
  }

  lemma JoinOne(before: seq<Item>, last: seq<Item>)
    requires InTurn(before) && |last| <= 1 && forall x, y :: x in before && y in last ==> ComesBefore(x, y)
    ensures InTurn(before + last)
  {}

  lemma FactsInOrder(ir: SemanticIR, fileOf: Op -> nat, factId: Op -> Id)
    requires UniqueIds(ir.operations)
    ensures InTurn(ItemsOf(OpsById(ir.operations), fileOf, factId, SortOps(ir.operations)))
  {
    SortOpsInOrder(ir.operations);
    SortOpsKeepsUnique(ir.operations);
    ItemsInTurn(OpsById(ir.operations), fileOf, factId, SortOps(ir.operations));
  }

  // ---------- the order of the scopes ----------

  predicate ScopeBefore(x: Item, y: Item) {
    || x.file < y.file || (x.file == y.file && x.position < y.position)
    || (x.file == y.file && x.position == y.position && x.subject <= y.subject)
  }

  /** Scopes are bisected in the order of file, place in the file, and scope. */
  lemma ScopesInSourceOrder(groups: seq<Group>, i: nat, j: nat)
    requires (forall g :: g in groups ==> g != []) && i < j < |groups|
    ensures |Sort(GroupLeq, groups)| == |groups|
    ensures var s := Sort(GroupLeq, groups);
            s[i] != [] && s[j] != [] && ScopeBefore(s[i][0], s[j][0])
  {
    SortIsSorted(GroupLeq, groups);
    SortKeepsElements(GroupLeq, groups);
    assert Sort(GroupLeq, groups)[i] in groups && Sort(GroupLeq, groups)[j] in groups;
  }

  /** A registered cleanup stands in the scope. */
  ghost predicate RegistersCleanup(ir: SemanticIR, scope: Id) {
    exists op :: op in ir.operations && op.kind == Defer && op.scope == scope
  }

  lemma CleanupScopeRead(ir: SemanticIR, fileOf: Op -> nat, factId: Op -> Id, items: seq<Item>, g: Group)
    requires UniqueIds(ir.operations) && IsScope(items, g)
    requires items == ItemsOf(OpsById(ir.operations), fileOf, factId, SortOps(ir.operations))
    ensures HasCleanup(g) <==> RegistersCleanup(ir, g[0].subject)
  {
    OfSubjectIsUniform(items, g[0].subject);
    if x :| x in g && x.fact.role.CleanupRegistration? {
      FactsRead(ir, fileOf, factId, x);
    }
    if op :| op in ir.operations && op.kind == Defer && op.scope == g[0].subject {
      var x := Item(op.scope, fileOf(op), op.position, Fact(factId(op), CleanupRegistration, op.id, false));
      assert FactAbout(ir, op, x.fact);
      FactsRead(ir, fileOf, factId, x);
      assert x in g;
    }
  }

  /** Of the scopes that compete for the inventory, those in which a cleanup is registered come first. */
  lemma CleanupScopesComeFirst(
        ir: SemanticIR, fileOf: Op -> nat, factId: Op -> Id, items: seq<Item>, i: nat, j: nat)
    requires UniqueIds(ir.operations)
    requires items == ItemsOf(OpsById(ir.operations), fileOf, factId, SortOps(ir.operations))
    requires i < j < |GroupOrderOf(ScopesOf(items))|
    ensures var s := GroupOrderOf(ScopesOf(items));
            && s[i] != [] && s[j] != []
            && (RegistersCleanup(ir, s[j][0].subject) ==> RegistersCleanup(ir, s[i][0].subject))
  {
    var groups := ScopesOf(items);
    var s := GroupOrderOf(groups);
    ScopesAreWhole(items);
    GroupOrderIsPrioritized(items, groups);
    assert s[i] in multiset(s) && s[j] in multiset(s);
    assert IsScope(items, s[i]) && IsScope(items, s[j]);
    CleanupScopeRead(ir, fileOf, factId, items, s[i]);
    CleanupScopeRead(ir, fileOf, factId, items, s[j]);
  }
}
