/** The resolver on a bounded inventory: what leaving scopes out can change (build_project_inventory and
    _resolve_candidate, smartbench/engine/project_reader.py). */
module InventoryReader {
  import opened Sequences
  import opened Ir
  import opened ControlFlow
  import opened TypeEvidence
  import opened ResourceLifecycle
  import opened ProjectReader
  import opened ReaderTheorems
  import opened Inventory
  import opened InventorySelection

  /** Every item stands with the scope of its fact's operation. */
  ghost predicate InOwnScope(ops: map<Id, Op>, items: seq<Item>) {
    forall x :: x in items ==> x.fact.operation in ops && ops[x.fact.operation].scope == x.subject
  }

  lemma CollectedInOwnScope(ir: SemanticIR, fileOf: Op -> nat, factId: Op -> Id, selected: seq<Item>)
    requires UniqueIds(ir.operations)
    requires forall x :: x in selected ==> x in ItemsOf(OpsById(ir.operations), fileOf, factId, SortOps(ir.operations))
    ensures InOwnScope(OpsById(ir.operations), selected)
  {
    var ops := OpsById(ir.operations);
    forall x | x in selected ensures x.fact.operation in ops && ops[x.fact.operation].scope == x.subject {
      var op := OriginOf(ops, fileOf, factId, SortOps(ir.operations), x);
      UniqueLookup(ir.operations, op);
    }
  }

  lemma SelectedIsCollected(items: seq<Item>, selected: seq<Item>)
    requires WholeScopes(items, selected)
    ensures forall x :: x in selected ==> x in items
  {
    forall x | x in selected ensures x in items {
      OfSubjectIsUniform(selected, x.subject);
      OfSubjectIsUniform(items, x.subject);
      assert x in OfSubject(selected, x.subject);
    }
  }

  lemma FactsOneMore(items: seq<Item>)
    requires items != []
    ensures FactsOf(items) == FactsOf(items[..|items| - 1]) + [items[|items| - 1].fact]
  {}

  lemma LastOfScope(items: seq<Item>, subject: Id)
    requires items != [] && items[|items| - 1].subject == subject
    ensures var local := OfSubject(items, subject);
            && local != [] && local[|local| - 1] == items[|items| - 1]
            && local[..|local| - 1] == OfSubject(items[..|items| - 1], subject)
  {}

  lemma LastOutsideScope(items: seq<Item>, subject: Id)
    requires items != [] && items[|items| - 1].subject != subject
    ensures OfSubject(items, subject) == OfSubject(items[..|items| - 1], subject)
  {}

  lemma RestInOwnScope(ops: map<Id, Op>, items: seq<Item>)
    requires items != [] && InOwnScope(ops, items)
    ensures InOwnScope(ops, items[..|items| - 1])
    ensures items[|items| - 1].fact.operation in ops && ops[items[|items| - 1].fact.operation].scope ==
            items[|items| - 1].subject
  {
    SplitLast(items);
  }

  /** Only facts of the call's own scope can match a cleanup. */
  lemma {:induction false} CleanupMatchesAreLocal(
        t: LifecycleText, g: Graph, op: Op, binding: string, path: string, m: string, items: seq<Item>)
    requires InOwnScope(g.ops, items)
    ensures CleanupMatches(t, g, op, binding, path, m, FactsOf(items)) ==
            CleanupMatches(t, g, op, binding, path, m, FactsOf(OfSubject(items, op.scope)))
    decreases |items|
  {
    if items != [] {
      RestInOwnScope(g.ops, items);
      CleanupMatchesAreLocal(t, g, op, binding, path, m, items[..|items| - 1]);
      LastMatch(t, g, op, binding, path, m, items);
      if items[|items| - 1].subject == op.scope {
        LastOfScope(items, op.scope);
        LastMatch(t, g, op, binding, path, m, OfSubject(items, op.scope));
      } else {
        LastOutsideScope(items, op.scope);
      }
    }
  }

  lemma LastMatch(t: LifecycleText, g: Graph, op: Op, binding: string, path: string, m: string, items: seq<Item>)
    requires items != []
    ensures var f := items[|items| - 1].fact;
            CleanupMatches(t, g, op, binding, path, m, FactsOf(items)) ==
            CleanupMatches(t, g, op, binding, path, m, FactsOf(items[..|items| - 1])) +
            (if MatchesCleanup(t, g, op, binding, path, m, f) then [f] else [])
  {
    var all := FactsOf(items);
    FactsOneMore(items);
    assert all[..|all| - 1] == FactsOf(items[..|items| - 1]);
  }

  lemma {:induction false} FilterOneMore<T(!new)>(f: T -> bool, s: seq<T>, x: T)
    ensures Filter(f, s + [x]) == Filter(f, s) + (if f(x) then [x] else [])
    decreases |s|
  {
    if s == [] {
      assert s + [x] == [x] && [x][1..] == [];
    } else {
      assert (s + [x])[1..] == s[1..] + [x];
      FilterOneMore(f, s[1..], x);
    }
  }

  /** The primary facts of a call are those of its own scope. */
  lemma {:induction false} PrimaryFactsAreLocal(ops: map<Id, Op>, c: Candidate, items: seq<Item>)
    requires InOwnScope(ops, items) && c.operation in ops
    ensures PrimaryFacts(c, FactsOf(items)) == PrimaryFacts(c, FactsOf(OfSubject(items, ops[c.operation].scope)))
    decreases |items|
  {
    if items != [] {
      RestInOwnScope(ops, items);
      PrimaryFactsAreLocal(ops, c, items[..|items| - 1]);
      LastPrimary(c, items);
      if items[|items| - 1].subject == ops[c.operation].scope {
        LastOfScope(items, ops[c.operation].scope);
        LastPrimary(c, OfSubject(items, ops[c.operation].scope));
      } else {
        LastOutsideScope(items, ops[c.operation].scope);
      }
    }
  }

  lemma LastPrimary(c: Candidate, items: seq<Item>)
    requires items != []
    ensures var f := items[|items| - 1].fact;
            PrimaryFacts(c, FactsOf(items)) ==
            PrimaryFacts(c, FactsOf(items[..|items| - 1])) +
            (if f.role.ResultCall? && f.operation == c.operation && f.primary then [f] else [])
  {
    FactsOneMore(items);
    FilterOneMore((f: Fact) => f.role.ResultCall? && f.operation == c.operation && f.primary,
                  FactsOf(items[..|items| - 1]), items[|items| - 1].fact);
  }

  lemma {:induction false} BindsAlike(
        t: LifecycleText, g: Graph, op: Op, binding: string, path: string, methods: seq<string>, items: seq<Item>,
        selected: seq<Item>)
    requires InOwnScope(g.ops, items) && InOwnScope(g.ops, selected)
    requires OfSubject(selected, op.scope) == OfSubject(items, op.scope)
    ensures BindCleanups(t, g, op, binding, path, methods, FactsOf(selected)) ==
            BindCleanups(t, g, op, binding, path, methods, FactsOf(items))
    decreases |methods|
  {
    if methods != [] {
      var m := methods[|methods| - 1];
      BindsAlike(t, g, op, binding, path, methods[..|methods| - 1], items, selected);
      CleanupMatchesAreLocal(t, g, op, binding, path, m, items);
      CleanupMatchesAreLocal(t, g, op, binding, path, m, selected);
    }
  }

  /** What leaving scopes out can change: nothing where the call's scope was kept; where it was left
      out, the resolver abstains for want of the primary fact. */
  ghost predicate ResolvesAlike(
        t: LifecycleText, index: Index, g: Graph, items: seq<Item>, selected: seq<Item>, c: Candidate) {
    var bounded := ResolutionOf(t, index, g, FactsOf(selected), c);
    if OperationProblem(g.ops, c).None? && OfSubject(selected, g.ops[c.operation].scope) == [] then
      bounded == Unresolved(PrimaryCount(0))
    else bounded == ResolutionOf(t, index, g, FactsOf(items), c)
  }

  lemma KeptScopeResolvesAlike(
        t: LifecycleText, index: Index, g: Graph, items: seq<Item>, selected: seq<Item>, c: Candidate)
    requires InOwnScope(g.ops, items) && InOwnScope(g.ops, selected) && WholeScopes(items, selected)
    ensures ResolvesAlike(t, index, g, items, selected, c)
  {
    if OperationProblem(g.ops, c).None? {
      var op := g.ops[c.operation];
      PrimaryFactsAreLocal(g.ops, c, items);
      PrimaryFactsAreLocal(g.ops, c, selected);
      if OfSubject(selected, op.scope) != [] {
        assert OfSubject(selected, op.scope) == OfSubject(items, op.scope);
        BindsAlike(t, g, op, op.resultTargets[c.resultIndex], c.memberPath, Dedupe(c.cleanupMethods), items, selected);
      } else {
        assert FactsOf(OfSubject(selected, op.scope)) == [];
      }
    }
  }

  /** On the inventory that is built, the resolver never decides a candidate otherwise than on the
      full list of facts, except that it abstains where the scope of the call was left out. */
  lemma BoundedInventoryResolvesAlike(
        t: LifecycleText, index: Index, ir: SemanticIR, fileOf: Op -> nat, factId: Op -> Id, sizeOf: SizeOf,
        maxFacts: int, maxChars: int, items: seq<Item>, p: Pack, c: Candidate)
    requires UniqueIds(ir.operations) && items ==
             ItemsOf(OpsById(ir.operations), fileOf, factId, SortOps(ir.operations))
    requires p == InventoryPack(items, sizeOf, maxFacts, maxChars)
    ensures ResolvesAlike(t, index, GraphOfIr(ir, {}), items, p.items, c)
  {
    InventoryIsBoundedAndWhole(items, sizeOf, maxFacts, maxChars, p);
    GraphOpsAreAll(ir);
    SelectedIsCollected(items, p.items);
    CollectedInOwnScope(ir, fileOf, factId, items);
    CollectedInOwnScope(ir, fileOf, factId, p.items);
    KeptScopeResolvesAlike(t, index, GraphOfIr(ir, {}), items, p.items, c);
  }
}
