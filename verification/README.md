# Verified model of the deterministic proof engine

SmartBench decides whether a hypothesis about a program becomes a finding with a deterministic
engine: graph queries over a normalized semantic IR, analyzers on top of them, a call linker, a gate
around untrusted model output, and a bounded capture of tool output. This project models that engine
in Dafny and proves what its answers mean. `dafny verify dfyconfig.toml` checks all of it.

- `Ir`, `Walks`: operations, typed edges, and walks, the yardstick for every graph query.
- `ControlFlow`, `Dominance`: reachability with its cache, the dominator fixpoint, path-scoped
  dominance, branch control, and how the two dominance algorithms relate.
- `IcfgRuns`, `IcfgSearch`, `Icfg`, `IcfgTheorems`, `IcfgHosts`: construction of the interprocedural
  graph, its bounded breadth-first path query, what a returned path says about the program, and when an
  embedded call cannot be bypassed.
- `ResourceLifecycle`, `StateMachine`, `RetryLoops`: the analyzers; `DepthFirst` says which witness the retry
  search finds. `CrossScope` relates a cross-scope
  proof to all runs; `CleanupCoverage`, `RetryReadings` and `ExitReadings` say when an analyzer decides what
  its documentation asks.
- `Reading`, `IcfgReading`, `LifecycleReport`, `GuardReport`, `RetryReport`, `ReaderReport`, `SessionReport`,
  `InventoryReport`: an independent reference for each answer, in terms of the operations and edges of a
  program alone, and the theorem that the answer is what the reference says.
- `Linker`, `LinkEvidence`, `CallPath`, `Shortlex`: call linking with type propagation and shortest call paths.
- `ProjectReader`, `ReaderTheorems`, `Session`, `TypeEvidence`: resolver, validator, bounded repair and
  analysis for every possible sequence of model replies.
- `Bisection`, `RoundRobin`, `Inventory`, `InventoryOrder`, `InventorySelection`, `InventoryReader`: the
  bounded inventory, and what the resolver decides on it.
- `BoundedOutput`: the streaming head and tail buffer.
- `JointCoverage`, `RetryExample`, `CrossScopeExample`, `ReaderExamples`: concrete programs on which the
  code departs from its documentation; `Programs` reads a small program off its lists.
- `Sequences`, `Multisets`: shared helpers.

## Conventions

- Ids are natural numbers under an order-preserving numbering of the id strings that occur, with 0 for
  the empty string; only equality, order and emptiness of ids are ever observed. A position is the
  rank of (file, line, column).
- Operation ids are assumed unique where a member says `UniqueIds`: frontends derive ids from content
  and merging IRs drops repeats. Fact ids are content addresses: `ContentAddressed` says that equal ids
  mean equal facts, and `Inventory.InventoryIsContentAddressed` derives it for the inventory.
- Rules on text (selectors, regular expressions, receiver and member paths, serialized sizes) are
  parameters that may be any function. Identifier, dotted-path and blank-string tests are concrete.
- The language model is an arbitrary function from call numbers to replies. `Session.Gates` names what
  resolver and validator compute for each candidate on one IR and inventory; `Session.GatesExist` gives it.
- A method that changes an object states its whole new state by a specification function or predicate;
  lemmas then say what that function means.

## Where the code says less than its documentation

- `dominates_between` is documented as asking whether every path visits the dominator. When dominator
  and target are the same operation it answers reachability instead
  (`Dominance.UnreachableTargetIsNotDominated`; exact condition: `Dominance.DominatesBetweenMeaning`).
- A lifecycle use is protected only by one single cleanup on every walk; two cleanups on the two arms of
  a branch do not count together (`JointCoverage.JointCoverageIsNotRecognized`; exact condition:
  `CleanupCoverage.ExactInEveryProgramIff`, at most one candidate).
- A typed-receiver link may not be uniquely typed in the final environment, since linking adds types
  (`Linker.TypedLinkMayLoseItsType`; exact condition: `Linker.LinkStillHoldsIff`).
- The direct control arcs of a host are removed only when it hosts a resolved call; a host that is also
  a RETURN of a called function keeps its return arcs (`IcfgTheorems.ResolvedHostsEnterTheirCalls`). A
  host with several embedded calls enters one of them and continues after the host
  (`IcfgHosts.OneOfTwoCallsIsSkipped`; exact condition: `IcfgHosts.MustEnterIff`).
- The retry search does not classify the first operation on the error branch, so a loop that sleeps
  there is reported (`RetryExample.SleepingRetryIsReported`; exact condition on that operation:
  `RetryReadings.AgreeInEveryProgramIff`, on all starts of a branch: `RetryReadings.DocumentedIsFromImmediateStarts`).
- Cross-scope proofs ask for dominance from the entries of the scope, and an operation with a predecessor
  is no entry: where a function begins with a loop no entry may reach its body, dominance then holds
  vacuously, and a guard that a run avoids counts as proof (`CrossScopeExample.ProvenPairMayBeUnguarded`; exact conditions: on the
  guard and action `CrossScope.GuardsWalksIff`, on the graph `CrossScope.DominanceGuardsIff`; bodies whose
  first operation has no predecessor, or an embedded call that leads to it, meet the latter by
  `CrossScope.NearEntriesAreSeen`).
- An invariant that requires an exit after its event has a selector of exits that no analysis reads; a pair
  is reported whenever the action is reachable, also through an exit (`ExitReadings.ThroughExit`; exact
  condition: `ExitReadings.ExitsReadIff`).
- A resolved candidate whose real call has a blank symbol makes the protocol constructor raise, and
  nothing catches it (`ReaderExamples.BlankSymbolRaises`; exact condition: `ReaderTheorems.ParsedProtocolAccepted`).
- A method shape accepted by the validator may not match its own exemplar in the analyzer
  (`ReaderExamples.AmbiguousEvidenceBlocksShape`; exact condition: `ReaderTheorems.ShapeIsUnmatchedIff`).

## Model

| member | source | states |
|---|---|---|
| ControlFlow.ControlFlowGraph.constructor | smartbench/analysis/control_flow.py:38-60 | the built object describes exactly the graph whose arcs are the control-flow edges between known operations of one scope; both adjacency tables list exactly these arcs, sorted; both caches start empty |
| ControlFlow.FromIr | smartbench/analysis/control_flow.py:62-77 | the language-filtered graph: kept operations and the edges among them |
| ControlFlow.ControlFlowGraph.Reachable | smartbench/analysis/control_flow.py:93-119 | true exactly when a non-empty walk leads from source to target; for any sequence of queries no cached answer is ever wrong, and the answer is cached afterwards |
| ControlFlow.ReachKeepsScope | smartbench/analysis/control_flow.py:93-105 | walks never leave a scope, so answering false for different scopes loses nothing |
| ControlFlow.ControlFlowGraph.Dominators | smartbench/analysis/control_flow.py:221-260 | terminates on every graph (cycles, several entries, no entry) and maps each operation n of the scope to exactly the operations that lie on every walk from a scope entry to n, vacuously all of the scope when no entry reaches n; memoized |
| ControlFlow.UpdateKeepsSolving | smartbench/analysis/control_flow.py:243-256 | rewriting one entry keeps the candidate sets above the true dominators and strictly shrinks the set of (node, candidate) pairs, which is why the fixpoint ends |
| ControlFlow.FixpointIsExact | smartbench/analysis/control_flow.py:240-258 | a solution of the equations that still covers all dominators is the dominator relation itself |
| ControlFlow.ControlFlowGraph.Dominates | smartbench/analysis/control_flow.py:121-128 | true exactly when every walk from an entry of the scope to the operation contains the dominator |
| ControlFlow.ControlFlowGraph.DominatesBetween | smartbench/analysis/control_flow.py:130-173 | true exactly when the three share a scope and start is the dominator, or the target is the dominator and reachable, or every non-empty walk from start to target visits the dominator |
| ControlFlow.ReachAvoiding | smartbench/analysis/control_flow.py:153-173 | the counterexample search over dominator-free arcs succeeds exactly when some walk misses the dominator |
| ControlFlow.ControlFlowGraph.BranchControls | smartbench/analysis/control_flow.py:175-195 | true exactly when both outcomes exist and exactly one of them has a walk (possibly empty) without LOOP_BACK arcs to the operation |
| ControlFlow.ControlFlowGraph.ReachableWithoutLoopBack | smartbench/analysis/control_flow.py:197-219 | true exactly when a possibly empty walk without LOOP_BACK arcs exists |
| Reading.RelationsAreSteps | smartbench/analysis/control_flow.py:38-60 | walks of the filtered graph step along exactly the NEXT, TRUE_BRANCH, FALSE_BRANCH, BODY, LOOP_BACK and LOOP_EXIT edges of the program between kept operations of one scope, loop-free ones along all but LOOP_BACK |
| Reading.ArcsAreAlphabetical | smartbench/analysis/control_flow.py:57-58 | the order of the adjacency lists is that of the text of the kind, then of the target |
| Reading.ControlIsDecision | smartbench/analysis/control_flow.py:175-195 | a branch controls an operation exactly when one of its two outcomes leads to it and the other exists and does not |
| Reading.DominanceIsAlwaysBefore | smartbench/analysis/control_flow.py:228-240 | dominates answers whether every way from a beginning of the scope passes the dominator; a scope begins where no step leads to, and if there is no such operation at its least one |
| Dominance.DominatorsFormChain | smartbench/analysis/control_flow.py:121-128 | of two dominators of a reachable operation one dominates the other |
| Dominance.AlgorithmsAgree | smartbench/analysis/control_flow.py:130-173 | in a scope with a single entry e, path-scoped dominance from e equals fixpoint dominance for every operation other than e reachable from e |
| Dominance.DominatesBetweenMeaning | smartbench/analysis/control_flow.py:130-151 | the query means "every walk visits the dominator" exactly when start is the dominator, or dominator and target differ, or the target is reachable |
| Dominance.UnreachableTargetIsNotDominated | smartbench/analysis/control_flow.py:150-151 | concrete graph on which the query for dominator = target differs from vacuous truth |
| Dominance.DominatorLiesBetween | smartbench/analysis/control_flow.py:130-173 | dominance on a reachable pair implies the two reachability tests analyzers put beside it |
| Icfg.InterproceduralControlFlowGraph.constructor | smartbench/analysis/icfg.py:191-281 | the arcs are exactly: function to its first contained operation, raw control edges except those of hosts of resolved embedded calls, host to embedded call, call to each target, and RETURN operations of a target to each continuation of the call; targets, continuations and function entries are exactly those of the edges; the successor table is determined by the IR, repetitions included, and its lists are sorted |
| Icfg.ScanEdges | smartbench/analysis/icfg.py:200-220 | one pass over the edges collects exactly the raw control edges, first entries and call targets |
| IcfgReading.ArcsRead | smartbench/analysis/icfg.py:191-285 | the five kinds of arcs in terms of operations and edges of the program alone |
| IcfgReading.JumpsAreAlphabetical | smartbench/analysis/icfg.py:280-281 | the order of the successor lists is that of target, text of the kind, and call |
| Icfg.InterproceduralControlFlowGraph.NextStack | smartbench/analysis/icfg.py:145-163 | an arc is followed exactly when the frame checks admit it, and the new stack is the only one they allow |
| Icfg.InterproceduralControlFlowGraph.Path | smartbench/analysis/icfg.py:115-170 | refuses exactly the illegal bounds; a returned path is the trace of the run with the least arcs, shorter first and then by target, kind and call, among all stack-consistent runs within the depth bound, whatever the budget; when the queue runs empty without an answer, even at the budget, no such run exists; a search that gives up has followed max_steps transitions, all distinct and from reachable states, and never more than max_steps - 1 + max out-degree |
| Icfg.ShortestRunIsUnique | smartbench/analysis/icfg.py:115-170 | so the answer is determined: two such paths between the same operations are equal |
| Icfg.EnoughBudgetDecides | smartbench/analysis/icfg.py:115-170 | with fewer reachable transitions than max_steps the answer is a path exactly when a run exists |
| Icfg.InterproceduralControlFlowGraph.ExpandEntry | smartbench/analysis/icfg.py:144-169 | one state yields an entry for every admitted arc and stops at the target |
| IcfgSearch.FrontierBoundsRuns | smartbench/analysis/icfg.py:138-170 | the breadth-first frontier meets every run, so the length of the head entry bounds all runs to the target from below |
| IcfgRuns.RunsAreNested | smartbench/analysis/icfg.py:145-163 | the enter and return arcs of any run form a prefix of a well-nested word whose open calls are the stack |
| IcfgRuns.DepthCountsCalls | smartbench/analysis/icfg.py:145-163 | the stack never exceeds the depth bound and its height is enters minus returns |
| IcfgRuns.ReturnMatchesCall | smartbench/analysis/icfg.py:155-163 | a return closes the latest open call, leaves from the callee scope, restores the stack of the call and lands on one of its continuations |
| IcfgRuns.RunIff | smartbench/analysis/icfg.py:133-170 | a word of arcs is a run exactly when it is a chain from the source in which every return closes the latest open call, from the scope that was entered and onto one of its continuations, with never more than max_call_depth calls open |
| IcfgRuns.CallErasure | smartbench/analysis/icfg.py:133-170 | erasing the matched calls of any run leaves states of the run linked by steps that stay inside a frame, except for one call entered per frame still open at its end |
| IcfgTheorems.FoundPathIsRealizable | smartbench/analysis/icfg.py:115-170 | a returned path is the trace of built arcs, well nested, with exactly call_depth open calls, within the bound |
| IcfgTheorems.PathsEraseToSourceWalks | smartbench/analysis/icfg.py:191-285 | erasing the matched calls of any returned path leaves a walk from source to target: each step is an edge of the IR, the way to an embedded call, a function entry, or a raw edge of the host of the call jumped over, except for exactly call_depth steps that each enter a target of a call |
| IcfgTheorems.RunsEraseToSourceWalks | smartbench/analysis/icfg.py:133-285 | the same for every run, found by the search or not |
| IcfgTheorems.ErasedStepIsSourceStep | smartbench/analysis/icfg.py:191-285 | what each erased step is in the program the graph was built from |
| IcfgTheorems.ReturnsLandOnHostSuccessors | smartbench/analysis/icfg.py:254-285 | a return leaves a RETURN in the scope of a function the matched call can call and lands on a raw successor of the host of the call (of the call, when it has none) |
| IcfgTheorems.ResolvedHostsEnterTheirCalls | smartbench/analysis/icfg.py:222-281 | all arcs out of a resolved host go to its own embedded calls exactly when it is no function, no resolved call and no RETURN of a called function |
| IcfgHosts.MustEnterIff | smartbench/analysis/icfg.py:240-252 | every run from a resolved host stays at the host and its embedded call until it enters that call, exactly when the host embeds no other call and has no entry or target of its own, and the call embeds none and flows to the host at most |
| IcfgHosts.SingleCallIsNotBypassed | smartbench/analysis/icfg.py:237-285 | under that condition, in any run, control is back in the frame of the host elsewhere only after a target of the call was entered and a RETURN of it went to a raw successor of the host |
| IcfgHosts.OneOfTwoCallsIsSkipped | smartbench/analysis/icfg.py:240-252 | concrete assignment x = f(g()) with a run from the host to its successor through f alone |
| ResourceLifecycle.Analyze | smartbench/analysis/resource_lifecycle.py:286-400 | the report is the fold of one verdict per acquisition over the protocols, findings with their bindings and type evidence and abstentions with their reasons; the lemmas below say what it means |
| ResourceLifecycle.Evaluate | smartbench/analysis/resource_lifecycle.py:312-399 | the verdict of one acquisition: abstain on index, binding, ownership transfer or no use, else clean or the first unprotected use |
| ResourceLifecycle.TransferAbstainsIff | smartbench/analysis/resource_lifecycle.py:339-352 | with a usable binding the verdict is the ownership abstention exactly when a RETURN of the scope of the acquisition, reached from it, returns the binding |
| ResourceLifecycle.VerdictMeaning | smartbench/analysis/resource_lifecycle.py:353-399 | without such a RETURN: an abstention exactly when there is no use, a finding exactly when some use has no cleanup on all walks to it, and nothing else but clean |
| ResourceLifecycle.NoFindingIsTransferred | smartbench/analysis/resource_lifecycle.py:339-399 | no finding of a report is about a binding that its function returns |
| LifecycleReport.VerdictRead | smartbench/analysis/resource_lifecycle.py:312-399 | the verdict on an acquisition in terms of operations and ways of the program alone, with the use and the cleanups a finding names |
| LifecycleReport.AcquiresIsAcquisition | smartbench/analysis/resource_lifecycle.py:298-311 | which calls are acquisitions: an assignment takes their results and calls them first, and the protocol names them by symbol, by method shape without receiver evidence, or by method, type and symbol of the receiver |
| ResourceLifecycle.ProtectedMeansOneOnEveryWalk | smartbench/analysis/resource_lifecycle.py:374-386 | for a reachable use the three tests together say exactly: one of the cleanups is on every walk |
| ResourceLifecycle.CleanMeansEveryUseIsCovered | smartbench/analysis/resource_lifecycle.py:329-399 | after a clean verdict every walk from the acquisition to any use visits a cleanup, one and the same for all walks to that use |
| ResourceLifecycle.FindingMeansEachCleanupIsAvoidable | smartbench/analysis/resource_lifecycle.py:329-399 | a finding names a reachable use such that for each cleanup candidate some walk avoids it, and every other use that no cleanup covers comes later in the order of the source |
| ResourceLifecycle.OneCandidateIsExact | smartbench/analysis/resource_lifecycle.py:329-399 | with at most one candidate and no transfer, a finding is reported exactly when some walk reaches a use without cleanup |
| JointCoverage.JointCoverageIsNotRecognized | smartbench/analysis/resource_lifecycle.py:374-386 | concrete program in which the analyzer reports a use although every walk from the acquisition to it passes one of two registered cleanups |
| CleanupCoverage.ExactInEveryProgramIff | smartbench/analysis/resource_lifecycle.py:374-386 | for an acquisition, a use and cleanup candidates of one scope: the three tests fail the use exactly when some walk to it has no cleanup, in every program that holds these operations and reaches them, if and only if there is at most one candidate |
| ResourceLifecycle.ReportIsAccounted | smartbench/analysis/resource_lifecycle.py:286-400 | acquisitions evaluated are all acquisitions of all protocols; each ends clean, as a finding or as an abstention; findings are as many as the unprotected ones, and abstentions, each with one reason, are the evaluations that abstain plus the protocols without acquisition |
| ResourceLifecycle.FindingsAreExact | smartbench/analysis/resource_lifecycle.py:286-400 | the findings are exactly the unprotected acquisitions of the protocols |
| LifecycleReport.FindingIff | smartbench/analysis/resource_lifecycle.py:286-400 | for every program and protocol list: an acquisition is a finding exactly when it acquires, its binding is usable and not handed over, and some use of it has no cleanup on all ways from the acquisition |
| LifecycleReport.FindingsInOrder | smartbench/analysis/resource_lifecycle.py:286-400 | findings come by protocol, and for one protocol in the order of the source |
| ResourceLifecycle.AnalyzedGraphDescribes | smartbench/analysis/resource_lifecycle.py:291-296 | graph and ordered operations of a run describe each other |
| RetryLoops.LoopBody | smartbench/analysis/retry_loops.py:262-288 | exactly the operations reached from the loop head without LOOP_EXIT arcs, and their direct predecessors |
| RetryLoops.UnmitigatedLoopback | smartbench/analysis/retry_loops.py:351-393 | the product search terminates and returns a witness exactly when an immediate retry exists: the operation at the end of the first simple trail back, in reverse order of the arcs |
| RetryLoops.RetriesMeansWalk | smartbench/analysis/retry_loops.py:351-393 | an immediate retry is a body-confined walk without LOOP_BACK arcs from an error-branch target to an operation that loops back, on which nothing after the first operation mitigates or blocks |
| RetryLoops.FirstRetryIsUnique | smartbench/analysis/retry_loops.py:351-393 | the witness of the search is determined |
| DepthFirst.TopIsFirst | smartbench/analysis/retry_loops.py:362-393 | a depth-first search from a stack finds the goal at the end of the first simple trail, where at every step the later arc is taken sooner |
| RetryReadings.DocumentedIsFromImmediateStarts | smartbench/analysis/retry_loops.py:13-17 | a retry on which every operation, the first included, neither mitigates nor blocks exists exactly when the search from the immediate error-branch targets alone finds one |
| RetryReadings.ImmediateStartsAgree | smartbench/analysis/retry_loops.py:351-393 | where every error-branch target inside the body is immediate, what the search decides is the documented property |
| RetryReadings.AgreeInEveryProgramIff | smartbench/analysis/retry_loops.py:351-393 | for the operation an error branch leads to and the names some assignments assign: search and documentation agree, on the body the analyzer computes, for every loop of every program that contains it and assigns these names in the body, if and only if it neither mitigates nor blocks |
| RetryExample.SleepingRetryIsReported | smartbench/analysis/retry_loops.py:351-393 | concrete loop whose error branch sleeps before it continues and which is reported all the same |
| RetryLoops.FindRetry | smartbench/analysis/retry_loops.py:221-254 | one branch: evaluated exactly when it is in the body and checks an error result; the one violation it may yield carries the first loop-back witness |
| RetryLoops.EvaluateOneLoop | smartbench/analysis/retry_loops.py:199-254 | one unbounded loop is counted once and adds exactly its due violations, by call and branch |
| RetryLoops.Analyze | smartbench/analysis/retry_loops.py:174-260 | the list of violations is determined by the program, and their triples are exactly the due (loop, call, branch) triples, each once; error branches evaluated are as many as the triples whose branch checks an error result of the call, and mitigated paths are the rest; loops evaluated are the unbounded loops |
| RetryReport.DueIff | smartbench/analysis/retry_loops.py:174-260 | which triples are due, in terms of operations and ways of the program alone: an unbounded loop, a risky call in it with an error result, a branch in it that checks this result, and a way from its error outcome back to the head inside the loop on which everything after the first operation neither bounds nor pauses the retry nor does other work |
| RetryReport.ViolationHasWayBack | smartbench/analysis/retry_loops.py:240-254 | the loop-back operation of a violation ends such a way back |
| RetryReport.ViolationsInOrder | smartbench/analysis/retry_loops.py:188-254 | violations come by scope, then by line and id of the loop, of the call, then as the branches are listed |
| RetryReadings.ImmediateMeaning | smartbench/analysis/retry_loops.py:393-425 | an operation neither mitigates nor blocks exactly when as a branch it has no limit and reads no assigned name but the error variable, as a call or spawn it does not pause, and as a call, spawn, send or emit it only records |
| RetryReadings.ErrorVariableIsIgnored | smartbench/analysis/retry_loops.py:408-424 | whether a triple is due or evaluated does not change when the error variable is added to or removed from the assigned names |
| RetryReadings.OtherNameEndsRetry | smartbench/analysis/retry_loops.py:408-424 | no retry walk passes, after its first operation, a branch that reads another assigned name |
| RetryExample.RetestedErrorIsReported | smartbench/analysis/retry_loops.py:408-424 | concrete loop whose error path tests the error again, in a body that assigns it, and which is reported |
| StateMachine.GuardsMeansProtects | smartbench/analysis/state_machine.py:370-379 | on a reachable pair the filters on a guard say exactly: it matches, is neither end, lies on every walk, and if it is a branch it controls the action |
| StateMachine.ScopeVerdict | smartbench/analysis/state_machine.py:350-414 | a pair is reported exactly when it is reachable and, under a guard invariant, no operation protects it; the other two kinds report every reachable pair |
| StateMachine.EveryGuardIsAvoidable | smartbench/analysis/state_machine.py:368-391 | for every matching non-branch guard of a reported pair some walk avoids it |
| ExitReadings.ExitsReadIff | smartbench/analysis/state_machine.py:403-413 | for a require-exit invariant and the operations of a scope: the pair is reported exactly when some walk from event to action has no exit between, in every program of these operations, if and only if no operation besides the two ends is an exit |
| ExitReadings.ThroughExit | smartbench/analysis/state_machine.py:403-413 | the program event, exit, action: reported although its only walk passes the exit |
| StateMachine.EvaluateScope | smartbench/analysis/state_machine.py:350-414 | the violations of one invariant in one scope, in the order of events and actions |
| StateMachine.ReportVerdict | smartbench/analysis/state_machine.py:222-226 | the verdict of ScopeVerdict, for the whole intraprocedural report |
| StateMachine.ScopesInAre | smartbench/analysis/state_machine.py:222-226 | a violation is in the intraprocedural report exactly when its scope and one of the invariants owe it |
| StateMachine.EvaluatePair | smartbench/analysis/state_machine.py:260-332 | a pair across scopes gets one outcome: no path (then no run exists, or the search has followed its whole budget of distinct reachable transitions), proven, undecided, or violated, each with a shortest run and what it requires of the guards inside that run |
| StateMachine.EvaluateInterprocedural | smartbench/analysis/state_machine.py:246-333 | every pair of an event and an action in different scopes gets exactly one justified outcome, and violations, paths and unknowns are their tally |
| StateMachine.PathGuardsAre | smartbench/analysis/state_machine.py:270-283 | the guards considered are exactly the analyzed matching operations on the path other than its ends |
| StateMachine.PathsAreAccounted | smartbench/analysis/state_machine.py:258-333 | evaluated paths are violations plus unknowns plus proofs |
| StateMachine.MissingGuardIsWitnessed | smartbench/analysis/state_machine.py:275-300 | a missing-guard violation carries a realizable path within the depth bound with no analyzed matching guard strictly inside |
| StateMachine.MissingGuardErasesToWalk | smartbench/analysis/state_machine.py:275-300 | seen through the source alone, a missing-guard violation comes with a walk from its event to its action that skips every call it returns from and enters call_depth calls, on which no analyzed operation between the ends matches the guard |
| CrossScope.ProvenPairIsGuarded | smartbench/analysis/state_machine.py:302-348 | for a proven pair and a guard that proves it: every walk of the program from outside the scope of the action visits the guard exactly when the guard is on every walk inside the scope from where it is entered; then every run from the event visits it; and this is so where dominance sees the entries |
| CrossScope.EveryRunIsGuarded | smartbench/analysis/state_machine.py:335-348 | a guard on every walk inside the scope from where it is entered to the anchor of the action is visited by every run from an event outside the scope, at every depth |
| CrossScope.GuardsWalksIff | smartbench/analysis/state_machine.py:335-348 | a guard is on every walk of the program from outside its scope to an action of the scope if and only if it is on every walk inside the scope from the operations where it is entered from outside |
| CrossScope.DominanceGuardsIff | smartbench/analysis/state_machine.py:343-348 | dominance by a guard implies that protection for every action if and only if the entries of the graph reach, without the guard, every operation where the scope is entered without it |
| CrossScope.NearEntriesAreSeen | smartbench/analysis/state_machine.py:343-348 | so it is when every body begins with an entry of the graph or with an operation that an entry other than the guard leads to, as the edge from an embedded call to its host does |
| CrossScope.EveryRunTakesTheOutcome | smartbench/analysis/state_machine.py:343-348 | when the guard also controls the action, every run visits a walk inside the scope that leaves its last visit to the guard by the controlling outcome, unless it comes to the action only over a LOOP_BACK arc or by entering a body again |
| CrossScope.KeptScopeIsKept | smartbench/analysis/control_flow.py:62-77 | a language filter that drops no operation of a scope keeps all its control flow, one of those conditions |
| CrossScopeExample.ProvenPairMayBeUnguarded | smartbench/analysis/state_machine.py:335-348 | concrete program whose callee begins with a loop: the pair is proven and a run reaches the action without any matching operation |
| StateMachine.Analyze | smartbench/analysis/state_machine.py:194-244 | the report: the intraprocedural part scope by scope on the filtered graph, then one interprocedural run per such invariant over the ICFG of the whole program |
| GuardReport.ReportIff | smartbench/analysis/state_machine.py:222-226 | the report lists a pair without path exactly when it breaks an intraprocedural invariant of the list: both in one scope, the action reached, and for a guard invariant nothing that matches is on every way and, as a branch, decides about the action |
| GuardReport.ReportStands | smartbench/analysis/state_machine.py:216-243 | the interprocedural part of a report has one run for each interprocedural invariant over the graph of the program, each run decides exactly its pairs in different scopes, every decision stands, and the violations with a path are those of the runs |
| GuardReport.ViolationsInOrder | smartbench/analysis/state_machine.py:350-414 | the violations of an invariant in a scope stand in the order of the source, by event and then by action |
| GuardReport.CrossViolationBreaks | smartbench/analysis/state_machine.py:246-333 | a pair listed with a path is in different scopes, the path is the least shortest run, and under a guard invariant no analyzed operation between its ends matches the guard |
| GuardReport.CrossPairIsSettled | smartbench/analysis/state_machine.py:246-333 | and every such pair of every interprocedural invariant has no run, or a spent budget, or the least shortest run, with which it is listed if that run breaks the invariant |
| GuardReport.ProofRead | smartbench/analysis/state_machine.py:335-348 | a guard proves an action exactly when both are in one scope and the guard is before the operation the action is embedded in, or the action itself, on every way from a beginning, leads to it and decides about it |
| GuardReport.ReportIsCounted | smartbench/analysis/state_machine.py:216-243 | the paths of a whole report are its violations across scopes, its unknowns and its proofs; invariants and scopes are counted as given and looked at |
| Linker.Round | smartbench/analysis/interprocedural.py:90-108 | one round is a segment of the deterministic run of the linking loop, one state per visited call; a round that keeps every call has learned no type |
| Linker.Link | smartbench/analysis/interprocedural.py:74-131 | terminates in the final state of that run; resolved, unresolved and ambiguous add up to the calls and count, under the final types, the linked ones, those with no candidate and those with several; call edges are exactly the links |
| LinkEvidence.LinksIff | smartbench/analysis/interprocedural.py:170-215 | when a call is linked to a function: exactly the evidence of the first kind that is there decides, and it names this function alone |
| LinkEvidence.DottedLinks | smartbench/analysis/interprocedural.py:170-215 | a dotted call is linked only to the function with its qualified name, to the one with its contextual target, or to a method of the single normalized type of its receiver |
| LinkEvidence.UndottedLinks | smartbench/analysis/interprocedural.py:170-215 | an undotted call is linked only by its qualified name, to the one function of that name in the namespace of the caller, by its contextual target, or to the one function of that name at all |
| LinkEvidence.LinksHaveEvidence | smartbench/analysis/interprocedural.py:87-128 | every link of a finished run has such evidence under the types known where it was made |
| LinkEvidence.PropagateMeaning | smartbench/analysis/interprocedural.py:309-333 | what a link adds to the types: for each result target the return type at its place, and nothing where one type meets several targets |
| Linker.FinishedRun | smartbench/analysis/interprocedural.py:88-128 | in a finished run types only grew, each link was made at a state of the run whose types left the function as the only candidate, and every call without a link has none or several under the final types |
| Linker.OneOutcome | smartbench/analysis/interprocedural.py:88-108 | on one input all finished runs end in the same state |
| Linker.LinkStillHoldsIff | smartbench/analysis/interprocedural.py:88-131 | a link of a finished run is what its call resolves to under the final types exactly when it was not made by receiver type or the receiver still has a single type |
| Linker.PropagateGrows | smartbench/analysis/interprocedural.py:310-333 | type propagation only adds types |
| Linker.ResolutionDependsOnReceiverTypes | smartbench/analysis/interprocedural.py:170-253 | resolution reads the environment only through the normalized types of the receiver |
| Linker.StillUniqueIff | smartbench/analysis/interprocedural.py:170-253 | a call linked under earlier types still resolves uniquely later exactly when it was not linked by receiver type or that type is still the only one |
| Linker.TypedLinkMayLoseItsType | smartbench/analysis/interprocedural.py:310-333 | concrete two-call program: in every finished run of the linker the typed link is kept although under the final types the call has no candidate |
| Linker.Apply | smartbench/analysis/interprocedural.py:134-147 | merging a link result appends exactly the items whose key is unknown |
| Linker.ApplyIsIdempotent | smartbench/analysis/interprocedural.py:134-147 | merging the same result twice changes nothing more |
| CallPath.CallPath | smartbench/analysis/interprocedural.py:588-623 | refuses exactly the illegal depths; an answer is the least walk (shorter first, then by ids) of at most max_depth calls; no answer means no such walk; a path through an id without operation fails |
| CallPath.LeastIsUnique | smartbench/analysis/interprocedural.py:588-623 | the least walk is unique, so the answer is determined |
| CallPath.LinkedPathsAreKnown | smartbench/analysis/interprocedural.py:619-619 | when call edges end in known operations no lookup on the path can fail |
| CallPath.CallStepsRead | smartbench/analysis/interprocedural.py:605-609 | the steps of a path: a linked call in the scope of one function leads to the other |
| CallPath.ExtensionIsLeast | smartbench/analysis/interprocedural.py:612-622 | visiting sorted callees breadth first makes the first walk to a function its least walk |
| Shortlex.LexLessMeaning | smartbench/analysis/interprocedural.py:616-622 | the order used is the usual one: at the first difference the id is smaller |
| ProjectReader.ParseModel | smartbench/engine/project_reader.py:831-869 | more than 30 items reject the document; otherwise the kept candidates are the well-formed ones that come first with their id, and every other item is counted as rejected |
| ProjectReader.KeptItemsIff | smartbench/engine/project_reader.py:844-862 | an item is kept exactly when its fields agree and no earlier item whose fields agree has its id |
| ProjectReader.KeptInOrder | smartbench/engine/project_reader.py:844-862 | kept candidates stand in the order of the items |
| ProjectReader.KeptItemsAre | smartbench/engine/project_reader.py:840-855 | kept candidates have distinct ids and fields that agree |
| ProjectReader.ResolveCandidate | smartbench/engine/project_reader.py:551-691 | the decision of the resolver, with its order of checks and its unresolved and ambiguous cases |
| ProjectReader.ValidateCandidate | smartbench/engine/project_reader.py:723-828 | the decision of the validator, with its order of checks; the exception of the protocol constructor is a third outcome |
| ReaderTheorems.ResolvedMeaning | smartbench/engine/project_reader.py:551-691 | a resolved candidate keeps the selectors, takes the symbol of the real call, and cites one primary fact and for every cleanup method a matching fact of the inventory |
| ReaderReport.ResolvedIff | smartbench/engine/project_reader.py:550-691 | a hypothesis resolves exactly when it selects a call of the program whose results an assignment takes and whose selected result has a usable name, exactly one fact states that call as primary, exactly one fact states each cleanup, and in typed mode one type and one symbol are stated for the receiver |
| ReaderReport.AbstentionRead | smartbench/engine/project_reader.py:550-691 | otherwise the first count that is not one is given as the reason, ambiguous above one and unresolved at none |
| ReaderTheorems.BindCleanupsBinds | smartbench/engine/project_reader.py:606-633 | each cleanup method is bound to the only structural match in the inventory |
| ReaderTheorems.SupportedIsGrounded | smartbench/engine/project_reader.py:723-828 | whatever the candidate and its citations, a supported protocol belongs to a real primary call with a usable binding and, for every cleanup method, a reachable DEFER in the same scope on that binding |
| ReaderReport.SupportedIff | smartbench/engine/project_reader.py:722-828 | a hypothesis is supported exactly when it selects such a call by its symbol, its cited facts are in the inventory and state the call and every cleanup, its type fields fit the evidence, and the protocol constructor accepts it, which otherwise raises |
| ReaderTheorems.ResolverAndValidatorAgree | smartbench/engine/project_reader.py:551-828 | a resolved candidate is supported exactly when its type fields fit its mode and the protocol constructor accepts it; nothing about calls, bindings, facts or cleanups can be rejected any more |
| ReaderTheorems.ParsedProtocolAccepted | smartbench/analysis/resource_lifecycle.py:64-93 | for a parsed and resolved candidate the protocol constructor raises exactly when the symbol of the real call is blank |
| ReaderTheorems.ExactResolvedIsSupported | smartbench/engine/project_reader.py:723-828 | a parsed exact-mode candidate that resolves is supported, unless the symbol is blank and the constructor raises |
| ReaderTheorems.ExemplarIsEvaluated | smartbench/analysis/resource_lifecycle.py:298-338 | on the same IR the exemplar of a supported protocol has a usable result and binding and a cleanup for each method, and it is an acquisition exactly when the mode matches it |
| ReaderTheorems.ExactCandidateIsAnalyzed | smartbench/analysis/resource_lifecycle.py:298-338 | end to end in exact mode: the exemplar is evaluated, never one of the abstentions for a missing acquisition, result or binding |
| ReaderExamples.AmbiguousEvidenceBlocksShape | smartbench/analysis/resource_lifecycle.py:507-520 | concrete program, facts and parsed candidate: it resolves, is supported, and its exemplar is no acquisition of the supported protocol |
| ReaderTheorems.ShapeIsUnmatchedIff | smartbench/analysis/resource_lifecycle.py:507-520 | a resolved method-shape candidate is supported and yet not matched exactly when its symbol is not blank and its receiver has evidence but no unique one, or the shape of its symbol is not comparable |
| ReaderExamples.BlankSymbolRaises | smartbench/analysis/resource_lifecycle.py:64-66 | concrete program and parsed candidate that resolves and on which the protocol constructor raises |
| TypeEvidence.UniqueType | smartbench/ir/type_evidence.py:133-143 | non-empty exactly when one type is stated, and then that type |
| Session.ResolveAndValidate | smartbench/core/session.py:374-396 | raises exactly when some decision raises; otherwise the decisions are those of the validator on resolved candidates followed by a rejection per abstention |
| Session.EveryCandidateIsDecidedOnce | smartbench/core/session.py:374-396 | the decisions are, as a multiset, exactly one per candidate of the model |
| Session.NoCandidateIsDecidedTwice | smartbench/core/session.py:374-396 | with distinct candidate ids no id is decided twice |
| Session.RepairMeansAllRejected | smartbench/core/session.py:189-193 | a repair is asked for exactly when there was a candidate, all were rejected and the limit is not used up |
| Session.EndingMeaning | smartbench/core/session.py:180-214 | for every sequence of replies: repairs stay within the limit, every reply but a failing last one parsed, all earlier models were rejected altogether, and the loop stopped for one of its three reasons |
| Session.RepairLimit | smartbench/core/session.py:188-188 | the number between 0 and 3 nearest to max_repairs |
| Session.AnalysisSession.RunProjectReader | smartbench/core/session.py:147-238 | the whole new state: stage and merged findings as determined by the replies; unsupported without operations, unavailable on an unusable first reply, unchanged when the exception escapes |
| Session.RunIsBounded | smartbench/core/session.py:181-233 | in a run that reaches the analyzer repairs are within the limit, every candidate has its one decision, and the status is abstained exactly when no protocol was supported |
| Session.FindingsAreGrounded | smartbench/core/session.py:216-233 | every finding has a supported protocol, an unprotected acquisition of it, and that protocol is grounded in the program |
| SessionReport.StageRead | smartbench/core/session.py:147-238 | how every run on a non-empty program ends, from the replies: unavailable on an unusable first reply; crashed exactly at a reply that is reached by rejections alone and has a candidate on which the constructor raises; else ended well, with the status of what was found and supported |
| SessionReport.ReplyRead | smartbench/engine/project_reader.py:831-869 | a reply states a model exactly when it is a document of at most thirty items; the model has the first well-formed item with each id, and the other items are counted |
| SessionReport.SessionFindingIff | smartbench/core/session.py:216-233 | an acquisition under a supported protocol is a finding of the session exactly when it leaks in the program |
| Session.AnalysisSession.MergeFindings | smartbench/core/session.py:311-331 | earlier findings stay in place and exactly the unknown new ones are appended |
| Bisection.MidpointOrder | smartbench/engine/project_reader.py:1155-1169 | the order is breadth-first bisection and takes exactly floor(log2 n) + 2 rounds for n of at least 1, one round for n = 0 |
| Bisection.MidpointOrderKeepsItems | smartbench/engine/project_reader.py:1155-1169 | the order is a permutation for every length |
| Bisection.RangesShrink | smartbench/engine/project_reader.py:1158-1168 | after k rounds no remaining range is longer than floor(n / 2^k) |
| Bisection.HalvedIsQuotient | smartbench/engine/project_reader.py:1164-1167 | k halvings are division by 2^k |
| RoundRobin.Interleave | smartbench/engine/project_reader.py:1129-1140 | rows of one item per column until a row adds nothing |
| RoundRobin.InterleavedHoldsAll | smartbench/engine/project_reader.py:1129-1140 | interleaving loses and repeats nothing |
| RoundRobin.InterleavingIsFair | smartbench/engine/project_reader.py:1129-1140 | at every prefix no column is more than one item ahead of a column that has items left |
| InventoryOrder.Spread | smartbench/engine/project_reader.py:1115-1140 | scopes in bisection order within files, interleaved over files in bisection order |
| InventoryOrder.SpreadIsFair | smartbench/engine/project_reader.py:1115-1140 | the spread is a permutation in which, at every prefix, no file is more than one scope ahead of a file that still has scopes left |
| InventoryOrder.GroupOrderIsPrioritized | smartbench/engine/project_reader.py:1093-1112 | the group order is a permutation, all cleanup-bearing scopes come first, and each part is fair |
| InventoryReport.CleanupScopesComeFirst | smartbench/engine/project_reader.py:1093-1112 | in the order of the scopes of a program, a scope with a registered cleanup is never after one without |
| InventoryReport.ScopesInSourceOrder | smartbench/engine/project_reader.py:1115-1152 | what is bisected are the scopes in the order of file, place of the first fact, and scope |
| Inventory.CollectItems | smartbench/engine/project_reader.py:210-264 | one fact per result call or registered cleanup, in source order |
| InventoryReport.FactsRead | smartbench/engine/project_reader.py:210-264 | the facts are exactly those of calls with result targets, primary when an assignment takes the results and calls them first, and of registered cleanups, with scope, file and position |
| InventoryReport.FactsInOrder | smartbench/engine/project_reader.py:210-264 | they come by position and operation |
| Inventory.GroupByScope | smartbench/engine/project_reader.py:266-269 | the facts of each scope, scopes in the order in which they first occur |
| Inventory.ScopesAreWhole | smartbench/engine/project_reader.py:266-269 | the groups are whole scopes, each once, and every fact is in one |
| Inventory.InventoryIsContentAddressed | smartbench/engine/project_reader.py:210-264 | with fact ids that tell operations apart any selection of the inventory has one fact per id |
| Inventory.FlattenKeepsScopesWhole | smartbench/engine/project_reader.py:294-297 | a list of scope groups contains every scope entirely or not at all |
| InventorySelection.GreedyCountIsMaximal | smartbench/engine/project_reader.py:294-297 | greedy selection stays within the count limit and at the end no omitted scope would still fit |
| InventorySelection.PopUntilFits | smartbench/engine/project_reader.py:344-362 | the evidence pack of the chosen scopes without the last ones |
| InventorySelection.FittingPrefixIsLongest | smartbench/engine/project_reader.py:349-361 | what is kept is the longest prefix of the chosen scopes whose evidence pack fits, or nothing |
| InventorySelection.SelectionKeepsLimits | smartbench/engine/project_reader.py:294-362 | either way of selecting keeps the count limit, fits the character limit or is empty, and takes whole groups |
| InventorySelection.BuildInventory | smartbench/engine/project_reader.py:194-362 | the evidence pack is the selection from the prioritized order of the whole scopes of the IR |
| InventorySelection.InventoryIsBoundedAndWhole | smartbench/engine/project_reader.py:194-362 | at most the requested and at most 1000 facts; empty or within the requested (at least 1000, at most 256000) characters; every scope entirely or not at all; when only the count limit binds no omitted scope would fit |
| InventorySelection.TraceTells | smartbench/engine/project_reader.py:283-306 | the limits are the numbers from 1 to 1000 and from 1000 to 256000 nearest to those asked for; the trace tells how many facts were selected, the character limit exactly when the pack chosen by count alone is too long, then how many facts were left out, and the count limit exactly when there are more facts |
| InventorySelection.EstimateIsConservative | smartbench/engine/project_reader.py:308-341 | where one scope more makes a pack longer by at most its own length and four characters, the estimate is never below the length of the pack |
| InventoryReader.BoundedInventoryResolvesAlike | smartbench/engine/project_reader.py:194-362 | on the inventory that is built the resolver decides every candidate as on the full list of facts, except that it abstains for want of the primary fact where the scope of the call was left out |
| BoundedOutput.Capture.constructor | smartbench/subprocess_utils.py:18-24 | limit at least one, head three quarters of it and at least one, the tail the rest |
| BoundedOutput.Capture.Consume | smartbench/subprocess_utils.py:26-44 | whatever the chunks, the buffers are the batch head and tail of everything delivered, and the total its length |
| BoundedOutput.Capture.Absorb | smartbench/subprocess_utils.py:32-40 | one chunk keeps the buffers equal to the batch head and tail |
| BoundedOutput.Capture.Render | smartbench/subprocess_utils.py:46-53 | the whole stream when it fits, else head, a positive and exact omitted count, and tail |
| BoundedOutput.TailGrows | smartbench/subprocess_utils.py:33-40 | appending a chunk to the tail and trimming gives the tail of the longer stream |
| BoundedOutput.ChunkingIsIrrelevant | smartbench/subprocess_utils.py:26-44 | splitting a stream into non-empty chunks does not change what is delivered |

## Left out

- Language frontends, parsing, repository access, adapters, rules, reports, the command line: input and output.
- The taint engine: a heuristic without a soundness claim.
- Text rules behind selectors, mitigation names, error conditions, receiver paths and type spelling: parameters.
- Linker.Link: function indices, caller namespaces and local types enter as values and functions; the argument, return-value and synchronization edges and the facts a link adds are not modelled.
- Linker.Apply: edge keys and fact ids stand for the edges and facts; recording the summary in the metadata of the IR is not modelled.
- ProjectReader.ParseModel: JSON field types, lengths and unknown fields are the `None` items; the summary, components and uncertainty texts are not modelled, only how many items were rejected.
- ProjectReader.ResolveCandidate: the record of normalized selectors and agent-cited ids kept for audit is not modelled.
- Session.AnalysisSession.RunProjectReader: hypotheses, the dictionary form of the stage, and statistics are not modelled; findings are merged by an arbitrary key function.
- Session.ResolveAndValidate: what the reply of the model depends on (prompt and validation feedback) is not modelled, since replies are arbitrary.
- InventorySelection.BuildInventory: the serialized length of an evidence pack is any function of its facts and trace, so the bound on the final one comes from the last loop alone; the hash that names it is not modelled.
- Inventory.CollectItems: evidence references, receiver texts and type attributes of facts are not modelled.
- BoundedOutput.Capture.Render: decoding the bytes and the wording of the marker are not modelled.
- StateMachine.Analyze: invariant messages and path evidence are not modelled.
- CrossScope.GuardsWalksIff: scopes where control flows into a call embedded in an operation of the scope from elsewhere than its host, where such a host is itself embedded in the scope, or that are entered at such a call, are not covered.
- CrossScope.EveryRunTakesTheOutcome: for a guard that is itself a call embedded in the scope, which no branch is, the outcome is not claimed.
- RetryLoops.Analyze: the retrieval trace is not modelled.
- ResourceLifecycle.Analyze: confidences, protocol ids and the wording of reasons are not modelled.
- Mining protocols from reference code, the state path query, and the boolean wrapper around the path query: loops over members that are modelled.
- Threads, timeouts and killing of processes in the bounded runner: operating-system behaviour.
- Confidences, timestamps and hash digests: not part of any decision modelled here.
