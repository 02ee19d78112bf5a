/** Two readings of "require exit after event" (smartbench/analysis/state_machine.py): the analyzer reports every
    reachable pair; with the invariant's selector of exits, a pair is at fault when some walk has no exit. */
module ExitReadings {
  import opened Sequences
  import opened Walks
  import opened Ir
  import opened ControlFlow
  import opened StateMachine

  /** Some walk from the event to the action on which no operation but the two ends is an exit. */
  ghost predicate ExitFree(g: Graph, inv: Invariant, event: Op, action: Op) {
    exists p :: ExitFreeWalk(g, inv, event, action, p)
  }

  ghost predicate ExitFreeWalk(g: Graph, inv: Invariant, event: Op, action: Op, p: seq<Id>) {
    && WalkFromTo(Rel(g), p, event.id, action.id) && |p| > 1
    && forall x :: x in p && x != event.id && x != action.id ==> x in g.ops && !inv.exits(g.ops[x])
  }

  ghost predicate Reported(g: Graph, inv: Invariant, operations: seq<Op>, event: Op, action: Op) {
    Violation(inv.id, event.scope, event, action, MissingFor(inv.kind), None)
      in ScopeViolations(g, inv, event.scope, operations)
  }

  /** A program of exactly these operations. */
  ghost predicate Made(g: Graph, operations: seq<Op>) {
    && WellFormed(g) && (forall id :: id in g.ops ==> g.ops[id] in operations)
    && forall op :: op in operations ==> op.id in g.ops && g.ops[op.id] == op
  }

  ghost predicate Pair(inv: Invariant, operations: seq<Op>, event: Op, action: Op) {
    && inv.kind.RequireExit? && inv.event(event) && inv.action(action) && event.id != action.id
    && UniqueIds(operations) && event in operations && action in operations
    && forall op :: op in operations ==> op.scope == event.scope
  }

  /** Exactly: the report of a pair means that some walk has no exit, in every program of the given
      operations, if and only if none of the others is an exit. */
  lemma ExitsReadIff(inv: Invariant, operations: seq<Op>, event: Op, action: Op)
    requires Pair(inv, operations, event, action)
    ensures (forall g :: Made(g, operations) ==>
               (Reported(g, inv, operations, event, action) <==> ExitFree(g, inv, event, action)))
            <==> forall op :: op in operations && op.id != event.id && op.id != action.id ==> !inv.exits(op)
  {
    if forall op :: op in operations && op.id != event.id && op.id != action.id ==> !inv.exits(op) {
      forall g | Made(g, operations)
        ensures Reported(g, inv, operations, event, action) <==> ExitFree(g, inv, event, action)
      {
        WithoutExits(g, inv, operations, event, action);
      }
    } else {
      var exit :| exit in operations && exit.id != event.id && exit.id != action.id && inv.exits(exit);
      var g := ThroughExit(inv, operations, event, action, exit);
    }
  }

  lemma WithoutExits(g: Graph, inv: Invariant, operations: seq<Op>, event: Op, action: Op)
    requires Pair(inv, operations, event, action) && Made(g, operations)
    requires forall op :: op in operations && op.id != event.id && op.id != action.id ==> !inv.exits(op)
    ensures Reported(g, inv, operations, event, action) <==> ExitFree(g, inv, event, action)
  {
    ScopeVerdict(g, inv, event.scope, operations, event, action);
    if Reach(Rel(g), event.id, action.id) {
      var p :| WalkFromTo(Rel(g), p, event.id, action.id) && |p| > 1;
      forall x | x in p && x != event.id && x != action.id ensures x in g.ops && !inv.exits(g.ops[x]) {
        var i :| 0 <= i < |p| && p[i] == x;
        OnWalkInGraph(g, p, i);
        assert g.ops[x] in operations && g.ops[x].id == x;
      }
      assert ExitFreeWalk(g, inv, event, action, p);
    }
    if p :| ExitFreeWalk(g, inv, event, action, p) {
      assert Reach(Rel(g), event.id, action.id);
    }
  }

  lemma OnWalkInGraph(g: Graph, p: seq<Id>, i: nat)
    requires WellFormed(g) && IsWalk(Rel(g), p) && |p| > 1 && i < |p|
    ensures p[i] in g.ops
  {
    var j := if i == 0 then 1 else i;
    assert (p[j - 1], p[j]) in Rel(g);
  }

  /** The program event -> exit -> action. */
  ghost function ExitGraph(operations: seq<Op>, event: Id, action: Id, exit: Id): Graph {
    Graph(OpsById(operations), {Arc(event, exit, Next), Arc(exit, action, Next)})
  }

  lemma ExitGraphIsMade(operations: seq<Op>, event: Op, action: Op, exit: Op)
    requires UniqueIds(operations) && event in operations && action in operations && exit in operations
    requires forall op :: op in operations ==> op.scope == event.scope
    ensures Made(ExitGraph(operations, event.id, action.id, exit.id), operations)
  {
    forall op | op in operations ensures op.id in OpsById(operations) && OpsById(operations)[op.id] == op {
      UniqueLookup(operations, op);
    }
  }

  lemma ExitGraphWalks(g: Graph, operations: seq<Op>, event: Id, action: Id, exit: Id)
    requires g == ExitGraph(operations, event, action, exit) && exit != event && exit != action && event != action
    ensures Reach(Rel(g), event, action)
    ensures forall p :: WalkFromTo(Rel(g), p, event, action) && |p| > 1 ==> exit in p
  {
    var r := Rel(g);
    assert Arc(event, exit, Next) in g.arcs && Arc(exit, action, Next) in g.arcs;
    assert WalkFromTo(r, [event, exit, action], event, action);
    forall p | WalkFromTo(r, p, event, action) && |p| > 1 ensures exit in p {
      assert (p[0], p[1]) in r;
      assert p[1] in p;
    }
  }

  /** It is reported, although the only walk passes the exit. */
  lemma ThroughExit(inv: Invariant, operations: seq<Op>, event: Op, action: Op, exit: Op) returns (g: Graph)
    requires Pair(inv, operations, event, action) && exit in operations && inv.exits(exit)
    requires exit.id != event.id && exit.id != action.id
    ensures Made(g, operations) && Reported(g, inv, operations, event, action) && !ExitFree(g, inv, event, action)
  {
    g := ExitGraph(operations, event.id, action.id, exit.id);
    ExitGraphIsMade(operations, event, action, exit);
    ExitGraphWalks(g, operations, event.id, action.id, exit.id);
    PassedExit(g, inv, operations, event, action, exit);
  }

  lemma PassedExit(g: Graph, inv: Invariant, operations: seq<Op>, event: Op, action: Op, exit: Op)
    requires Pair(inv, operations, event, action) && Made(g, operations) && Reach(Rel(g), event.id, action.id)
    requires exit in operations && inv.exits(exit) && exit.id != event.id && exit.id != action.id
    requires forall p :: WalkFromTo(Rel(g), p, event.id, action.id) && |p| > 1 ==> exit.id in p
    ensures Reported(g, inv, operations, event, action) && !ExitFree(g, inv, event, action)
  {
    ScopeVerdict(g, inv, event.scope, operations, event, action);
  }
}
