# Criteria: a Dafny model of the workflow compiler's static checks and of two host protocols

Criteria compiles a workflow directory into a finite state machine, checks that machine before anything is
executed, and then talks to adapters while it executes. This project models the parts of it whose promises are
about *every* walk, *every* interleaving or *every* pair of inputs, and proves those promises.

| module | what it models |
|---|---|
| `Names`, `Walks` | byte-wise name order, sorted keys; walks, reachability and cycles over a set of edges |
| `FsmGraph` | the compiled graph and its two edge enumerators: targets, and weighted edges |
| `Reachability`, `Livelocks`, `Paths`, `Cycles` | forward and backward reachability, trapped nodes, counterexample traces, shortest cycles, back edges |
| `Budget`, `OverflowGuards`, `Overflows` | Dijkstra over step costs in 64-bit arithmetic: what it computes, when it cannot overflow, and what happens when it does |
| `Feasibility`, `Verifier` | step budgets and visit bounds, and `checkReachability` as a whole |
| `Bottlenecks` | what the feasibility check says of a step no run can go around |
| `OutcomeRouting` | the outcome completeness check against the engine's routing of outcomes and failed attempts |
| `CallCycles` | the coloured depth-first search for cycles in the adapter call graph |
| `Locals` | ordering `local` values by dependency (Kahn's algorithm) |
| `TaintFlow` | the two taint sweeps: over steps and over locals |
| `EditDistance` | the two-row Levenshtein distance behind suggestions |
| `OutcomeSchemas` | structural subtyping of outcome schemas and their JSON Schema form |
| `Subworkflows` | recursive compilation of imports |
| `MergedSource` | joining source files and cutting expressions back out |
| `PauseProtocol`, `NestedCalls`, `Decisions`, `PermissionStates` | the permission state of an adapter session: pending tool calls and the calls behind them, pause gate, drain, decision window, snapshot and restore |
| `McpProgress`, `McpPermissions` | the MCP bridge: progress routing and pending permission decisions |

Loops and objects of the source are methods, arrays and classes here, each proved against a specification; what the source
promises is proved about that specification. The concurrent protocols are also state machines whose steps are the source's
critical sections and the moves between them, with results over all runs; the objects' methods take those steps.

## What the proofs found

- **Step counts overflow, and nothing guards against it.** The sum in `relaxDijkstraEdges` wraps. Every label the search writes
  is the cost of a real route if and only if no edge it relaxes takes the sum past `math.MaxInt` (`Budget.LabelsHonestIff`); under
  that guard the search is exact and its parents lead back. It is enough that for each node no farther than the nearest goal the least
  cost plus each permitted edge is in range, and needed for each node strictly nearer (`OverflowGuards.GuardSuffices`,
  `OverflowGuards.GuardNeeded`); counts that add up to at most `math.MaxInt`, each step once, are always in range
  (`OverflowGuards.CeilingSuffices`).
  - Two counts can add up to a negative distance, within every budget (`Overflows.WrappedCountEscapesBudget`).
  - A wrapped detour can undercut a target that is attainable but over budget: the least cost is 151 steps, the budget 100,
    and no error is emitted (`Overflows.DetourEscapesBudget`).
  - **Compilation can hang.** A retry loop whose count is `math.MaxInt` rewrites the parent of a visited node, so that the
    parents run in a circle. The cost found is right, but `reconstructBFSPath` never meets the start (`Overflows.RetryLoopHangs`);
    its loop ends exactly when the parents lead back (`Paths.LoopEndsIff`).
- **A saturated count hides a step from the budget check** even when nothing overflows: the search never selects a node at distance
  `math.MaxInt`, so a due budget error is skipped (`Overflows.SaturatedCountEscapesBudget`). Without overflow the check is right
  if and only if there is no positive budget, no route, or a route below `math.MaxInt` or within the budget
  (`Overflows.BudgetErrorExactIff`).
- **Saturation misleads the visit check both ways**, again without overflow. A step that needs `math.MaxInt` visits and may be visited
  once draws no visit error (`Overflows.SaturatedCountEscapesBound`). A route within every bound that costs exactly `math.MaxInt` does
  not keep the error away (`Overflows.FailoverDeniedInBounds`). Without overflow the visit error is right if and only if there is no route;
  or none within the bounds, and one below `math.MaxInt`; or one within the bounds, and one of those is below `math.MaxInt` or no route is
  (`Overflows.VisitErrorExactIff`).
- **The completeness check promises more than it asks.** It is there so that an adapter failure cannot leave the machine without a next
  transition (`workflow/compile_steps_graph.go:80-83`), and accepts any failure-like name, a fallback or a default outcome. The engine routes
  a failed attempt only to an outcome named `failure` (`OutcomeRouting.FailureRoutedIff`), so a step that passes can still end the run
  (`OutcomeRouting.CompleteButStuck`). Nothing short of a fatal error strands a step if and only if it declares both `failure` and a default outcome
  (`OutcomeRouting.NeverStuckIff`).
- **The two edge enumerators can disagree.** Reserved names are refused only at top level, so a sub-workflow body may declare
  a state called `return`; a wait or approval that leads there is an ordinary edge to one enumerator and an exit to the other
  (`FsmGraph.ReturnStateSplitsViews`). They agree exactly on the other nodes (`FsmGraph.EdgeViewsAgree`).
  For a whole graph, the topological target check and the priced one agree exactly when the target is ahead, or the run neither starts at `return` nor reaches such a wait or approval
  (`Verifier.TargetAheadIffRoute`).
- **The call-cycle search never reports a cycle twice**, not even rotated, although the comment above it
  (`workflow/compile_call_edges.go:168-172`) allows for that; the deduplication by canonical key drops nothing
  (`CallCycles.ReportsDoNotRepeat`, `CallCycles.DedupeKeepsAll`). The key joins names with an arrow, so this needs names without one
  (`CallCycles.ArrowsCollide`); references are two identifiers and a dot (`workflow/compile_step_target.go:205-216`), which have none.
- **A drain returns only calls that were pending when it began as long as the gate stays set.** Lifting the gate half-way
  lets it return a newcomer (`PauseProtocol.LiftedGateLetsNewcomersIn`).
- **A reused request id clears another call's registration.** A second call under an id in flight is accepted and registers nothing; if it
  settles first, the first call is no longer pending while it is still in progress (`NestedCalls.ReusedIdClearsAnother`). Over all runs,
  registrations are cleared by their own calls only if and only if every call that settles finds its own registration or none
  (`NestedCalls.OwnCallsIff`), and that is so at a state exactly when no two calls in progress share a pending id (`NestedCalls.SettlesOwnIff`).
- **The guard against closing a settled marker twice never fires**: the marker of a pending call is always open
  (`PauseProtocol.PendingNotClosed`, `PauseProtocol.MarkersAreClosedOnce`).
- **The end of one session's permission stream denies every session's pending requests**, because the pending map belongs to the bridge
  (`McpPermissions.OthersCanBeDenied`). Requests are denied only by the end of their own stream exactly when every stream that ends
  finds no other session's request pending (`McpPermissions.OwnStreamIff`). A request registered after its stream has ended waits for
  the host or for another stream's end (`McpPermissions.LateRequestWaits`); after any stream's end only requests registered since are waiting
  (`McpPermissions.OnlyLateRequestsWait`), and a request waits exactly as long as nothing touches its id (`McpPermissions.WaitingIff`).
- **`typeCompatSubset` is not transitive in general**: it chains through a type exactly when no absent type is compared in
  it (`OutcomeSchemas.TransitiveIff`). It is sound for JSON Schema validation exactly when no untyped part of the producer is
  trusted with a constrained part of the schema (`OutcomeSchemas.SubtypingSoundIff`). It also refuses what it could accept: it accepts without
  such trust exactly when every payload of the producer is one of the schema's type and both are built alike, so a list never passes
  for a set, nor an object for a map (`OutcomeSchemas.SubtypingExactIff`); and a schema that accepts anything is refused for every typed
  producer (`OutcomeSchemas.AnythingIsRefused`). On primitives, lists and objects it is exact (`OutcomeSchemas.PlainSubtypingIff`).

## Model

| member | source | states |
|---|---|---|
| `Names.LessIff` | workflow/compile_steps_graph.go:480-492 | names are ordered by the first character that differs, a prefix before what it is a prefix of |
| `FsmGraph.EdgeViewsAgree` | workflow/compile_reachability.go:381-424 | for a node that is not both a step and a switch, targets of the weighted edges without `return` are the node's targets, and `return` is among them iff the node has a return edge, iff the node is not a wait or approval leading to `return` |
| `FsmGraph.WellFormedViewsAgree` | workflow/compile_steps_graph.go:462-529 | on a well-formed graph both edge views agree at every node |
| `FsmGraph.EndsAndTargets` | workflow/compile_reachability.go:381-424 | at any node the views name the same targets other than `return`, and the cost view reaches `return` for a return edge or for a wait or approval leading there |
| `FsmGraph.ReturnStateSplitsViews` | workflow/compile_validators.go:39-60 | a body with a state named `return` and a wait leading to it splits the views |
| `FsmGraph.EdgesDeclared` | workflow/compile_steps_graph.go:462-529 | an edge of the graph is a transition some outcome, default, condition, wait or approval declares, other than `_continue` and, from a step or switch, `return` |
| `FsmGraph.TargetsDeclared` | workflow/compile_steps_graph.go:462-529 | the topology view lists exactly those |
| `FsmGraph.ReturnEdgeIff` | workflow/compile_reachability.go:107-128 | a return edge is a declared transition of a step or switch to `return` |
| `FsmGraph.EdgesPriced` | workflow/compile_reachability.go:381-424 | the cost view lists exactly the declared transitions, those of a step at the price of their outcome and all others free |
| `FsmGraph.CostsDeclared` | workflow/compile_reachability.go:428-445 | an outcome that ends an iteration costs as many steps and visits as a count or else a collection has turns, or one step and as many visits as a parallel collection has items; any other costs one of each |
| `FsmGraph.StepOutcomesInOrder` | workflow/compile_reachability.go:382-398 | outcomes come by name, the default last |
| `FsmGraph.OutcomeTargetsInOrder` | workflow/compile_steps_graph.go:495-514 | one target per outcome other than `_continue` and `return`, in the order of the outcomes |
| `FsmGraph.MapValuesInKeyOrder` | workflow/compile_steps_graph.go:480-491 | one value per key, in the order of the keys |
| `FsmGraph.OutcomeEdgesInOrder` | workflow/compile_reachability.go:381-399 | one weighted edge per outcome other than `_continue`, with that outcome's costs, in the order of the outcomes |
| `Reachability.CollectReachableNodes` | workflow/compile_reachability.go:15-29 | the breadth-first walk collects a node iff some walk leads to it |
| `Reachability.OrderedReachableNodes` | workflow/compile_reachability.go:211-239 | exactly the declared reachable nodes |
| `Reachability.ReachableNodesInOrder` | workflow/compile_reachability.go:211-239 | they come each once, steps as declared, then switches, waits, approvals and states, each kind by name |
| `Reachability.BuildReverseAdjacency` | workflow/compile_reachability.go:150-161 | predecessor lists are exactly the edges out of reachable nodes, each list in name order |
| `Reachability.CollectExits` | workflow/compile_reachability.go:164-177 | the search starts from exactly the exit states and the reachable nodes with a return edge |
| `Reachability.ComputeCoAccessibleNodes` | workflow/compile_reachability.go:163-190 | a node of a forward-closed set is collected iff some walk from it reaches a terminal state, a `requires` state or a return edge: restricting to reachable nodes loses nothing |
| `Paths.ReconstructPath` | workflow/compile_reachability.go:360-370 | the reversed parent chain runs from start to end, each node the recorded parent of the next |
| `Paths.LoopEndsIff` | workflow/compile_reachability.go:360-365 | the loop ends iff some path follows the parent pointers from start to end |
| `Cycles.ShortestCycleFrom` | workflow/compile_reachability.go:272-303 | empty iff no closed walk passes the start; otherwise a closed walk no longer than any other |
| `Cycles.NoShorterCycle` | workflow/compile_reachability.go:285-301 | when the nearest open node closes the loop, every closed walk is at least as long |
| `Livelocks.ReconstructLivelockTrace` | workflow/compile_reachability.go:243-268 | terminates with a walk of real edges from the node; it ends in a loop or in a node without targets, as the flag says, and is a shortest cycle when the node lies on one |
| `Livelocks.TrappedStaysTrapped` | workflow/compile_reachability.go:131-135 | no walk leaves the trapped region |
| `Livelocks.CheckLivelocks` | workflow/compile_reachability.go:136-148 | a declared reachable node is reported iff no walk from it reaches an exit, and each report carries a walk through trapped nodes only |
| `Livelocks.StepHasBackEdge` | workflow/compile_steps_graph.go:753-786 | the separately written search answers the same question: a non-`while` step has a back edge iff it lies on a cycle |
| `Budget.RelaxDijkstraEdges` | workflow/compile_reachability.go:583-595 | the loop relaxes every edge within the visit bound when that is enforced |
| `Budget.NextUnvisitedDijkstraNode` | workflow/compile_reachability.go:564-573 | the unique least candidate by distance and name, whatever order the map is read in |
| `Budget.OpenLabelOnRoute` | workflow/compile_reachability.go:544-562 | any route to an unvisited node passes an open label that costs no more |
| `Budget.VisitKeepsSound` | workflow/compile_reachability.go:583-595 | a visit whose sums stay in range keeps labels honest, ordered and settled, zero-cost edges included, and leaves visited labels alone |
| `Budget.VisitedAtLeastCost` | workflow/compile_reachability.go:544-562 | without overflow every node is visited at the least cost of any route to it |
| `Budget.SearchExact` | workflow/compile_reachability.go:544-595 | without overflow the search arrives with the least cost of any permitted route to a goal, or no such route costs less than `math.MaxInt` |
| `Budget.LabelsHonestIff` | workflow/compile_reachability.go:583-595 | for every graph: all labels are costs of real routes iff no relaxed edge overflows |
| `Budget.ParentsLeadBack` | workflow/compile_reachability.go:575-581 | without overflow the parents lead back from every label despite zero-cost edges |
| `Budget.NoOverflowTraceable` | workflow/compile_reachability.go:575-581 | without overflow reconstructing the path ends |
| `Budget.SearchReports` | workflow/compile_reachability.go:575-581 | without overflow the path the parents describe is that of a cheapest route which passes no goal before its end |
| `Budget.FinalizeTargetPath` | workflow/compile_reachability.go:575-581 | the path the parents describe, with `return` shown as the target state |
| `Budget.ShortestStepPathToTarget` | workflow/compile_reachability.go:544-562 | for every graph on which the parents lead back: the loop computes the search, a function of the graph alone, and the path its parents describe; without overflow that is a cheapest route, and not finding one means none costs less than `math.MaxInt` |
| `OverflowGuards.GuardSuffices` | workflow/compile_reachability.go:583-595 | if for each node no farther than the nearest goal the least cost plus each permitted edge is in range, nothing overflows |
| `OverflowGuards.GuardNeeded` | workflow/compile_reachability.go:583-595 | if nothing overflows, that holds of each node strictly nearer than every goal |
| `OverflowGuards.CeilingSuffices` | workflow/compile_reachability.go:583-595 | counts that add up, each step once, to at most `math.MaxInt` cannot overflow |
| `OverflowGuards.CeilingReaches` | workflow/compile_reachability.go:564-573 | below `math.MaxInt` they leave no reachable goal out of range |
| `Overflows.BudgetErrorExactIff` | workflow/compile_reachability.go:507-522 | without overflow the budget error is emitted as it should be iff there is no positive budget, no route, or a route below `math.MaxInt` or within the budget |
| `Overflows.VisitErrorExactIff` | workflow/compile_reachability.go:524-537 | without overflow the visit error is emitted as it should be iff there is no route; or none within the bounds, and one below `math.MaxInt`; or one within the bounds, and one of those is below `math.MaxInt` or no route is |
| `Overflows.SaturatedCountEscapesBound` | workflow/compile_reachability.go:479-490 | a graph without overflow on which a due visit error is skipped |
| `Overflows.FailoverDeniedInBounds` | workflow/compile_reachability.go:479-490 | a graph without overflow that has a route within every bound and draws the visit error |
| `Overflows.SaturatedCountEscapesBudget` | workflow/compile_reachability.go:479-490 | a graph without overflow on which a due budget error is skipped |
| `Overflows.WrappedCountEscapesBudget` | workflow/compile_reachability.go:583-595 | a graph on which the distance wraps to a negative number and a due budget error is skipped |
| `Overflows.DetourEscapesBudget` | workflow/compile_reachability.go:583-595 | a graph whose cheapest route takes 151 steps on which a wrapped detour hides a due budget error |
| `Overflows.RetryLoopHangs` | workflow/compile_reachability.go:589-592 | a graph on which the cost found is right but the parents run in a circle, so that reconstructing the path never ends |
| `Feasibility.FindVisitBoundViolationOnPath` | workflow/compile_reachability.go:597-620 | the first step of the path that cannot keep its visit bound, with the visits it needs and has; none iff every step keeps it |
| `Feasibility.ViolatesIff` | workflow/compile_reachability.go:597-620 | a step breaks its bound on a path iff it has one and every declared transition to the next node needs more visits, one of them fewer than `math.MaxInt` |
| `Feasibility.NoViolationMeansFeasible` | workflow/compile_reachability.go:525-536 | a reported path whose hops each cost less than `math.MaxInt` and on which no step breaks its bound gives a route within every bound that costs no more, parallel edges and the rewriting of `return` included |
| `Feasibility.VisitErrorIff` | workflow/compile_reachability.go:524-537 | without overflow the visit error is emitted iff there are routes below `math.MaxInt` and none of them keeps every bound |
| `Feasibility.CheckBudgetAndVisitFeasibility` | workflow/compile_reachability.go:507-539 | the budget error iff the reported cost is over a positive budget, and the visit error iff only the search without bounds arrives and a step of the path shown breaks its bound; without overflow, the budget error iff there are routes below `math.MaxInt` and every route overspends the budget, and the visit error iff there are routes below `math.MaxInt` but none of them within the bounds, each with a cheapest path and true numbers |
| `Bottlenecks.BottleneckErrors` | workflow/compile_reachability.go:507-539 | a step no route goes around, left only when all its turns succeed, draws the visit error if it has more turns than its bound and the budget error if it has more turns in a row than the budget |
| `Bottlenecks.FirstStepUnavoidable` | workflow/compile_reachability.go:507-539 | the step a run starts with is such a step |
| `Verifier.TargetAheadIffRoute` | workflow/compile_reachability.go:307-331 | a priced route to a goal exists iff the target is ahead, the run starts at `return`, or it reaches a wait or approval leading there; so the topological check and the unconstrained search agree exactly when the target is ahead or none of that holds |
| `Verifier.WellFormedStaysOnCourse` | workflow/compile_validators.go:39-60 | at top level, where `return` is reserved, they always agree |
| `Verifier.CheckTargetStateReachability` | workflow/compile_reachability.go:307-331 | the error iff neither the target nor a return edge can be reached |
| `Verifier.UnreachableNamed` | workflow/compile_reachability.go:32-93 | exactly the unreachable active nodes are errors and exactly the unreachable plain states are warnings |
| `Verifier.CheckReachability` | workflow/compile.go:386-403 | every finding names the right node and none is missed; when the searches stay in range the graph is rejected iff some active node is unreachable, some reachable node is trapped, the target is out of reach or infeasible, or a step that does not iterate is incomplete |
| `Verifier.CheckTopology` | workflow/compile.go:387-390 | the unreachable and trapped nodes, each named, with the set of nodes reached |
| `Verifier.ReportIncomplete` | workflow/compile.go:396-401 | exactly the steps that do not iterate and are incomplete are reported |
| `OutcomeRouting.ValidateStepOutcomeCompleteness` | workflow/compile_steps_graph.go:84-120 | a step passes iff it has a default outcome, or a failure path and a success path, in whatever order its outcomes are read; which gap is reported |
| `OutcomeRouting.RunStepFromAttempt` | internal/engine/node_step.go:913-990 | the attempt loop and the mapping after it route as specified |
| `OutcomeRouting.FailureRoutedIff` | internal/engine/node_step.go:897-905 | a step whose every attempt fails moves on iff it declares an outcome named `failure` |
| `OutcomeRouting.NeverStuckIff` | internal/engine/node_step.go:350-361 | no run of attempts without a fatal error leaves a step without a next node iff it declares `failure` and a default outcome; then it is complete |
| `OutcomeRouting.FirstToSettle` | internal/engine/node_step.go:350-361 | the first attempt that settles it decides where the step goes: where its outcome or else the default leads, where `failure` leads, where the default's name leads, or nowhere |
| `OutcomeRouting.NoneSettles` | internal/engine/node_step.go:973-980 | if none settles it the run ends |
| `OutcomeRouting.RoutedAlongTransitions` | internal/engine/node_step.go:350-361 | the engine moves only along transitions the compiler has checked |
| `OutcomeRouting.SubworkflowNeverStuckIff` | internal/engine/node_step.go:607-637 | a sub-workflow step goes where `success` or `failure` leads; it always has a next node iff it declares both or a default |
| `OutcomeRouting.LowerIs` | workflow/compile_steps_graph.go:122-123 | outcome names are compared in lower case |
| `OutcomeRouting.CompleteButStuck` | workflow/compile_steps_graph.go:80-83 | a complete step that ends the run whenever its adapter fails, and as a sub-workflow step either way |
| `Verifier.CeilingInRange` | workflow/compile_reachability.go:507-562 | counts that add up, each step once, below `math.MaxInt` always stay in range |
| `CallCycles.AdapterCallAdjacency` | workflow/compile_call_edges.go:138-153 | exactly the calls between different adapters, each callee once |
| `CallCycles.AdapterCycleRoots` | workflow/compile_call_edges.go:157-166 | declared adapters first, then each other caller once, and nothing else |
| `CallCycles.StackCycle` | workflow/compile_call_edges.go:207-215 | the part of the stack from the first occurrence of the adapter on, and nothing iff it is not on the stack |
| `CallCycles.Finder.Dfs` | workflow/compile_call_edges.go:177-196 | explores everything white below an adapter, restores the stack, and reports one cycle per edge that re-enters the stack |
| `CallCycles.ReportsAreSimple` | workflow/compile_call_edges.go:173-204 | every report is a simple cycle of the call graph |
| `CallCycles.ReportsDoNotRepeat` | workflow/compile_call_edges.go:173-204 | each report is closed by exactly one back edge, so no two reports are rotations of each other |
| `CallCycles.ClosedWalkCrosses` | workflow/compile_call_edges.go:173-204 | every closed walk takes the closing call of some report |
| `CallCycles.CrossingIsMutual` | workflow/compile_call_edges.go:173-204 | an adapter on such a walk and the report's first adapter can call each other |
| `CallCycles.FindCallCycles` | workflow/compile_call_edges.go:173-204 | every closed walk takes the closing call of some report, so every adapter on a cycle is mutually reachable with an adapter of a report; a cycle is reported iff there is one; reports are simple and pairwise not rotations |
| `CallCycles.CanonicalCycleKey` | workflow/compile_call_edges.go:249-261 | the cycle rotated to its smallest adapter, joined with arrows |
| `CallCycles.CanonicalIffRotations` | workflow/compile_call_edges.go:249-261 | two simple cycles are rotated to the same sequence iff they are rotations of each other |
| `CallCycles.JoinedInjective` | workflow/compile_call_edges.go:249-261 | names without arrows can be read back from the joined key |
| `CallCycles.KeyIffRotations` | workflow/compile_call_edges.go:249-261 | rotations have the same key; over names without arrows, simple cycles with the same key are rotations |
| `CallCycles.ArrowsCollide` | workflow/compile_call_edges.go:249-261 | two cycles over names with arrows that share a key and are not rotations, so that one is dropped |
| `CallCycles.AdapterCycleWarnings` | workflow/compile_call_edges.go:221-245 | one warning per key, for its first cycle, in order |
| `CallCycles.DedupeCovers` | workflow/compile_call_edges.go:221-245 | over names without arrows every cycle given is a rotation of one warned about |
| `CallCycles.DedupeNoRepeats` | workflow/compile_call_edges.go:221-245 | no two warnings are about rotations of one cycle |
| `CallCycles.DedupeKeepsAll` | workflow/compile_call_edges.go:221-245 | over names without arrows, cycles that are not rotations of each other are all kept |
| `CallCycles.WarnAdapterCallCycles` | workflow/compile_call_edges.go:122-130 | warnings appear iff some adapter can call itself through others, every such loop takes the last call of a warning if no reference has an arrow in it, each warning shows a closed walk without repeats, and none is shown twice |
| `Locals.AddLocalDeps` | workflow/compile_locals.go:96-122 | a repeated reference counts once, every self-reference counts, and the dependents of each local are recorded exactly |
| `Locals.BuildLocalDepGraph` | workflow/compile_locals.go:80-93 | in-degrees and reverse lists represent exactly the references between declared locals |
| `Locals.RefsAre` | workflow/compile_locals.go:96-111 | a local refers to another iff `local.` and its declared name occur in its value |
| `Locals.Release` | workflow/compile_locals.go:139-145 | placing a local lowers exactly its dependents by one, and the ready list stays the sorted list of unplaced locals of degree zero |
| `Locals.GreedyIsFirst` | workflow/compile_locals.go:126-166 | always taking the smallest available local gives the lexicographically first order |
| `Locals.StuckDependsOnCycle` | workflow/compile_locals.go:148-163 | a left-over local depends on a cycle |
| `Locals.OrderedAvoidsCycles` | workflow/compile_locals.go:126-166 | an ordered local depends on none |
| `Locals.TopoSortLocals` | workflow/compile_locals.go:126-166 | an order iff no local depends on itself; it is the lexicographically first with every dependency earlier; otherwise the names listed are exactly those that depend on a cycle, sorted |
| `Locals.OrderLocals` | workflow/compile_locals.go:20-45 | the same, from value expressions |
| `TaintFlow.BuildPredecessors` | workflow/compile_taint.go:124-150 | exactly the outcome edges that lead from a listed step to a step |
| `TaintFlow.MarkSeeds` | workflow/compile_taint.go:51-76 | exactly the listed steps with a tainted expression or an adapter that has secrets are added |
| `TaintFlow.SweepSteps` | workflow/compile_taint.go:81-94 | a sweep marks only what a marked step leads to, and reports no change only when the marks are closed |
| `TaintFlow.TaintPass` | workflow/compile_taint.go:42-95 | a step ends tainted iff it was, is a seed, or is reachable from such a step over step-to-step outcomes, for any step order; the sweeps end |
| `TaintFlow.TaintLocal` | workflow/compile_secret_bindings.go:187-201 | a local is due iff its value is secret or refers to a marked local |
| `TaintFlow.MarkTaintedLocals` | workflow/compile_secret_bindings.go:164-183 | a local ends tainted iff it was, is secret, or refers in one or more steps to such a local, whatever order the map is read in |
| `TaintFlow.SameReferences` | workflow/compile_locals.go:96-111 | taint follows the same references that order the locals |
| `EditDistance.LevenshteinDistance` | workflow/compile_output_refs.go:185-209 | the buffer-swapping loop computes the recurrence over all prefixes |
| `EditDistance.Min3` | workflow/compile_output_refs.go:211-222 | the least of the three |
| `EditDistance.ScriptExists` | workflow/compile_output_refs.go:185-209 | a script of that many single-byte insertions, deletions and substitutions exists |
| `EditDistance.NoShorterScript` | workflow/compile_output_refs.go:185-209 | and no shorter one does |
| `EditDistance.ZeroIffEqual` | workflow/compile_output_refs.go:185-209 | zero iff the strings are equal |
| `EditDistance.Symmetric` | workflow/compile_output_refs.go:185-209 | symmetric |
| `EditDistance.Triangle` | workflow/compile_output_refs.go:185-209 | the triangle inequality |
| `OutcomeSchemas.Reflexive` | workflow/compile_outcome_schema.go:179-212 | every type is compatible with itself |
| `OutcomeSchemas.TransitiveIff` | workflow/compile_outcome_schema.go:179-212 | comparisons chain through a type iff no absent type is compared in it |
| `OutcomeSchemas.CtyToSchemaNode` | workflow/jsonschema.go:58-103 | computes the specified schema document with the defaults written in, or fails on an absent type |
| `OutcomeSchemas.ObjectSchemaNode` | workflow/jsonschema.go:108-137 | properties for all attributes, with their defaults, and, in name order, the attributes that may not be left out |
| `OutcomeSchemas.DescribedIff` | workflow/jsonschema.go:58-103 | a type has a document iff no absent type stands where the document would describe it |
| `OutcomeSchemas.DefaultsInPlace` | workflow/jsonschema.go:140-165 | every place of the document carries exactly the default declared for it |
| `OutcomeSchemas.DefaultsDoNotValidate` | workflow/jsonschema.go:140-165 | a document with defaults accepts the same payloads as without |
| `OutcomeSchemas.SubtypingSoundIff` | workflow/compile_outcome_schema.go:179-212 | where the comparison holds, every payload of the producer validates against the schema iff no untyped part of the producer meets a constrained part of the schema |
| `OutcomeSchemas.SubtypingExactIff` | workflow/compile_outcome_schema.go:179-212 | the comparison accepts without trusting an untyped producer iff every payload of the producer is one of the schema's type and the types are built alike |
| `OutcomeSchemas.PlainSubtypingIff` | workflow/compile_outcome_schema.go:179-212 | on types of primitives, lists and objects it accepts iff every payload of the producer is one of the schema's type |
| `OutcomeSchemas.ContainsIff` | workflow/compile_outcome_schema.go:172-178 | containment of payloads decided by structure, all kinds of types included |
| `OutcomeSchemas.AnythingIsRefused` | workflow/compile_outcome_schema.go:179-189 | an untyped schema is refused for every typed producer, although all payloads satisfy it |
| `OutcomeSchemas.PayloadsValidate` | workflow/jsonschema.go:58-137 | payloads of a compatible, typed producer validate, with open records and optional members absent |
| `OutcomeSchemas.SchemaExactIff` | workflow/jsonschema.go:77-95 | the document accepts exactly the payloads of the type iff the type has no tuple and no map of typed values |
| `Subworkflows.DetectSubworkflowCycle` | workflow/compile_subworkflows.go:141-157 | the whole chain with the repeated directory iff the directory is in the chain |
| `Subworkflows.CompileSingleSubworkflow` | workflow/compile_subworkflows.go:49-100 | the cycles reported for one import are exactly the lassos that begin with it, and whatever else is reported is what is wrong with that import or below it; the chain stays without repeats and the recursion ends |
| `Subworkflows.CompileSubworkflows` | workflow/compile_subworkflows.go:19-32 | duplicates, failed resolutions and refused pins are reported and not followed; every other import is followed |
| `Subworkflows.CompileWorkflow` | workflow/compile.go:128-154 | compiling a directory under a chain reports exactly the lassos that continue the chain from there, and exactly what is wrong with the directories entered |
| `Subworkflows.CompileRoot` | workflow/compile.go:121-123 | a cycle is reported iff the imports reachable from the root contain one, self-imports of the root included; any other problem iff a reachable directory has it |
| `Subworkflows.ImportGraphDeclared` | workflow/compile_subworkflows.go:49-80 | one directory imports another iff it declares, under a name not used before, a source that resolves there with the pin asked for |
| `Subworkflows.FoundFromRoot` | workflow/compile_subworkflows.go:49-100 | the directories the recursion looks at are exactly those reachable along imports |
| `MergedSource.JoinBytes` | workflow/parse_dir.go:362-378 | the parts with separators between them, filling exactly the space computed for them |
| `MergedSource.MergeSources` | workflow/parse_dir.go:203-207 | the buffer is the non-empty files with a line feed between them, and each of distinctly named files lies in it at its recorded offset |
| `MergedSource.MergeOne` | workflow/parse_dir.go:279-283 | adding a file keeps every earlier offset valid and places the new file |
| `MergedSource.ExtractionIsPerFile` | workflow/compile_switches.go:457-481 | any in-bounds range of a file, cut out of the merged buffer, is that range of the file |
| `MergedSource.ExtractionFromOneFile` | workflow/compile_switches.go:457-481 | without offsets a range is cut from the one file; a file without an offset, a range beyond the buffer and a missing buffer give nothing |
| `PauseProtocol.StepKeepsInv` | internal/adapterhost/permission_state.go:306-361 | every critical section keeps filing, fates, markers and drains in order |
| `PauseProtocol.RunKeepsInv` | internal/adapterhost/permission_state.go:306-566 | so does every interleaving |
| `PauseProtocol.RegistrationsAreConserved` | internal/adapterhost/permission_state.go:306-409 | every registration has exactly one fate: cleared, abandoned at close, discarded by a restore, or still pending |
| `PauseProtocol.FatesIff` | internal/adapterhost/permission_state.go:335-409 | over all runs a registration is cleared iff a clear of its id found it, abandoned iff it was pending at a close, and discarded iff it was pending at a restore |
| `PauseProtocol.PendingIff` | internal/adapterhost/permission_state.go:306-361 | over all runs the pending calls are exactly those registered, with the gate open and under an id not pending then, that nothing has ended since |
| `PauseProtocol.CloseTakesAll` | internal/adapterhost/permission_state.go:352-361 | a close or restore leaves nothing pending and takes exactly what was |
| `PauseProtocol.EndedStaysEnded` | internal/adapterhost/permission_state.go:352-361 | what one close or restore takes is never pending again, so no other takes it |
| `PauseProtocol.GateIff` | internal/adapterhost/permission_state.go:447-465 | over all runs the gate is set iff it was set and not lifted since |
| `PauseProtocol.MarkersAreClosedOnce` | internal/adapterhost/permission_state.go:335-347 | no settled marker is closed twice, exactly the cleared cancelable calls have theirs closed, and no pending call's marker is closed |
| `PauseProtocol.PendingNotClosed` | internal/adapterhost/permission_state.go:335-347 | the guard against closing twice never fires |
| `PauseProtocol.GateFreezesRegistry` | internal/adapterhost/permission_state.go:447-465 | while the gate is set nothing is registered and the pending set only shrinks |
| `PauseProtocol.DrainReturnsCanceledEntrants` | internal/adapterhost/permission_state.go:487-541 | a drain under the gate returns only calls that were pending at its start, each canceled if it can be |
| `PauseProtocol.DrainMissesNothing` | internal/adapterhost/permission_state.go:487-541 | a call pending at the drain's second snapshot and still pending when it has returned is in its result, and canceled if it can be |
| `PauseProtocol.CanceledIff` | internal/adapterhost/permission_state.go:487-541 | over all runs a call is canceled iff a drain took it up and it can be |
| `PauseProtocol.IdleDrainReturns` | internal/adapterhost/permission_state.go:487-541 | a drain that finds nothing at its second snapshot returns nothing, without the settle grace |
| `NestedCalls.RegistryRuns` | internal/adapterhost/tool_call.go:815-856 | every run of starting and settling calls is a run of the registry |
| `NestedCalls.PendingInProgress` | internal/adapterhost/tool_call.go:815-856 | over all runs, what is pending was registered by a call still in progress under that id |
| `NestedCalls.OwnCallsIff` | internal/adapterhost/tool_call.go:856 | over all runs, registrations are cleared only by the calls that made them iff every call that settles finds its own registration or none |
| `NestedCalls.SettlesOwnIff` | internal/adapterhost/tool_call.go:856 | whichever call settles next finds its own iff no two calls in progress share a pending id |
| `NestedCalls.RegistryMirrorsCalls` | internal/adapterhost/permission_state.go:293-298 | if no call starts under an id in flight, each registration is cleared by its own call, and unless the session closes or is restored every call in progress is pending |
| `NestedCalls.ReusedIdClearsAnother` | internal/adapterhost/permission_state.go:312-314 | a run on which a second call under the same id clears the first one's registration and closes its marker |
| `PauseProtocol.LiftedGateLetsNewcomersIn` | internal/adapterhost/permission_state.go:454-458 | lifting the gate half-way breaks that |
| `Decisions.RecordKeepsFaithful` | internal/adapterhost/permission_state.go:213-249 | recording keeps the window the recent end of the history and each in-flight entry at its latest decision |
| `Decisions.WindowIsRecent` | internal/adapterhost/permission_state.go:213-249 | after any decisions the window is the last min(n, 1000) |
| `Decisions.RestorePreservesAnswers` | internal/adapterhost/permission_state.go:597-642 | under any new policy, exactly the in-flight requests still in the window get their old answer and exactly the others are re-evaluated |
| `Decisions.AnswerSurvivesRestore` | internal/adapterhost/permission_state.go:213-249 | a request evaluated as allowed or denied, and not decided on since, gets that same answer and reason from a restore iff fewer than 1000 decisions followed; otherwise the new policy is asked |
| `Decisions.AuditSurvivesRestore` | internal/adapterhost/permission_state.go:618-637 | the audit entry of the restore spells out the answer given and marks a replayed one |
| `Decisions.RestoreIsFaithful` | internal/adapterhost/permission_state.go:597-642 | the restored log is faithful again, with exactly the re-evaluated requests in flight |
| `PermissionStates.PermissionState.constructor` | internal/adapterhost/permission_state.go:139-145 | starts in the protocol's initial state with an empty log |
| `PermissionStates.PermissionState.RegisterPendingToolCall` | internal/adapterhost/permission_state.go:306-329 | takes the protocol's register step; refused iff the id is new and the gate is set, and only a new id is filed |
| `PermissionStates.PermissionState.ClearPendingToolCall` | internal/adapterhost/permission_state.go:335-347 | takes the clear step: exactly the entry under the id goes, and the marker of a cancelable call is closed |
| `PermissionStates.PermissionState.DrainPendingToolCalls` | internal/adapterhost/permission_state.go:352-361 | returns every pending call once, leaves nothing pending, and abandons exactly those returned |
| `PermissionStates.PermissionState.SnapshotPendingToolCalls` | internal/adapterhost/permission_state.go:470-478 | every pending call once, registry unchanged |
| `PermissionStates.PermissionState.Stop` | internal/adapterhost/permission_state.go:365-409 | cancels and closes the stream, leaves nothing pending, abandons every pending call, and audits in words the number of open requests and each abandoned call |
| `PermissionStates.PermissionState.BeginToolCallPause` | internal/adapterhost/permission_state.go:447-451 | sets the gate |
| `PermissionStates.PermissionState.ResumeToolCalls` | internal/adapterhost/permission_state.go:454-458 | lifts the gate |
| `PermissionStates.PermissionState.Pause` | internal/adapterhost/permission_state.go:547-556 | gate and stream flag change in one step, then the stream is canceled if it can be |
| `PermissionStates.PermissionState.Resume` | internal/adapterhost/permission_state.go:561-566 | likewise back |
| `PermissionStates.PermissionState.EvaluateAtLayerWithPolicy` | internal/adapterhost/permission_state.go:188-210 | the verdict of the call's policy, or else the session's, or else a denial, is recorded at its layer, sent if the stream is live, and audited |
| `PermissionStates.PermissionState.SetStreamCancel` | internal/adapterhost/permission_state.go:153-158 | the stream is active and there is a cancel function from then on |
| `PermissionStates.PermissionState.RecordDecision` | internal/adapterhost/permission_state.go:213-249 | takes the log's record step; the stored verdict is `allow` iff the call was allowed and `deny` otherwise |
| `PermissionStates.PermissionState.SendEvent` | internal/adapterhost/permission_state.go:261-291 | an event is offered only to a live stream |
| `PermissionStates.PermissionState.MarshalState` | internal/adapterhost/permission_state.go:570-593 | the snapshot lists every in-flight request once and the window |
| `PermissionStates.PermissionState.RestoreState` | internal/adapterhost/permission_state.go:597-642 | an unknown version changes nothing; otherwise registry, log, replies and audit entries are exactly the specified ones |
| `PermissionStates.HandOver` | internal/adapterhost/permission_state.go:570-642 | what one adapter was told about a request is what the next is told when the session's snapshot is restored for it, under any policy |
| `PermissionStates.BuildAnswered` | internal/adapterhost/permission_state.go:613-617 | the lookup holds the latest decision of each request in the window |
| `Names.FormatIsDecimal` | cmd/criteria-adapter-mcp/bridge.go:156-166 | a printed number can be read back as decimal and has no leading zero |
| `McpProgress.TokenInjective` | cmd/criteria-adapter-mcp/bridge.go:156-157 | different serial numbers print as different tokens, none empty |
| `McpProgress.StepKeepsInv` | cmd/criteria-adapter-mcp/bridge.go:156-221 | every step keeps the registry exactly the executes in flight, each under its own token, and every held or sent notification rightly attributed |
| `McpProgress.NotificationsReachTheirExecute` | cmd/criteria-adapter-mcp/bridge.go:202-221 | over all runs a token is never another execute's, a tokened notification reaches only its own execute, and an untokened one only an execute that was alone in flight |
| `McpProgress.NotificationsConserved` | cmd/criteria-adapter-mcp/bridge.go:202-221 | over all runs every notification that found its execute is held or sent, just once, and nothing else is |
| `McpProgress.LookupExact` | cmd/criteria-adapter-mcp/bridge.go:177-200 | a token finds its execute iff that is registered, and untokened traffic is attributed iff exactly one execute is in flight |
| `McpProgress.Session.RegisterExec` | cmd/criteria-adapter-mcp/bridge.go:156-165 | takes the mint and register steps; no registered execute has the token |
| `McpProgress.Session.UnregisterExec` | cmd/criteria-adapter-mcp/bridge.go:168-175 | takes the unregister step if the execute is registered and otherwise changes nothing |
| `McpProgress.Session.SoleExec` | cmd/criteria-adapter-mcp/bridge.go:190-200 | the only execute iff there is exactly one |
| `McpProgress.Session.RouteProgress` | cmd/criteria-adapter-mcp/bridge.go:210-221 | takes the lookup and send steps: sent to exactly the execute the lookup finds |
| `McpPermissions.StepKeepsInv` | cmd/criteria-adapter-mcp/bridge.go:996-1034 | every step keeps each channel in exactly one place |
| `McpPermissions.OneDecisionPerChannel` | cmd/criteria-adapter-mcp/bridge.go:1011-1022 | over all runs, fresh ids or not, a channel gets at most one decision, no send finds its buffer full, and a decision is the host's for that request or the final denial |
| `McpPermissions.ReadAtMostOnce` | cmd/criteria-adapter-mcp/bridge.go:939-960 | over all runs a call reads at most one decision, and only one that was sent |
| `McpPermissions.FatesPartition` | cmd/criteria-adapter-mcp/bridge.go:939-1009 | with fresh ids a channel is pending, in hand, answered or withdrawn, and exactly one of these |
| `McpPermissions.DrainAnswersEveryone` | cmd/criteria-adapter-mcp/bridge.go:1024-1034 | the end of any stream denies every pending request, whichever session's |
| `McpPermissions.OwnStreamIff` | cmd/criteria-adapter-mcp/bridge.go:976-977 | over all runs, requests are denied only by their own stream's end iff every stream that ends finds no other session's request pending |
| `McpPermissions.OthersCanBeDenied` | cmd/criteria-adapter-mcp/bridge.go:976-977 | a run on which a session's request is denied by another session's stream |
| `McpPermissions.WaitingIff` | cmd/criteria-adapter-mcp/bridge.go:996-1034 | over all runs, a request is pending iff since its registration no answer, withdrawal, registration under its id or stream's end has occurred |
| `McpPermissions.OnlyLateRequestsWait` | cmd/criteria-adapter-mcp/bridge.go:1024-1034 | over all runs, after the end of any stream every pending request was registered since |
| `McpPermissions.LateRequestWaits` | cmd/criteria-adapter-mcp/bridge.go:939-960 | a run on which a request registered after its stream ended is still waiting |
| `McpPermissions.Bridge.RegisterPendingPerm` | cmd/criteria-adapter-mcp/bridge.go:996-1003 | takes the register step: the channel is filed under its id |
| `McpPermissions.Bridge.CleanupPendingPerm` | cmd/criteria-adapter-mcp/bridge.go:1005-1009 | takes the cleanup step |
| `McpPermissions.Bridge.SendPermDecision` | cmd/criteria-adapter-mcp/bridge.go:1011-1022 | takes the locked step and the send after it: the decision lands in the request's own channel and no other changes |
| `McpPermissions.Bridge.DrainPendingPerms` | cmd/criteria-adapter-mcp/bridge.go:1024-1034 | takes the drain step in whatever order the map yields: every pending channel holds a denial afterwards and the map is empty |

## Left out

- HCL parsing, cty evaluation and constant folding: folded counts, collection lengths and the traversals of an expression are given values.
- checkExprForTaint and checkExprForDataSecretTaint: a flat scan of traversals; each expression comes with its verdict. Phase 3 of the taint pass only repeats that scan.
- Taint through switches, waits and approvals: the source follows only edges from step to step, and so does the closure proved here.
- Budget.ShortestStepPathToTarget: a graph on which the parents run in a circle is left to `Overflows.RetryLoopHangs`, because the code does not end on it; what the search returns after an overflow is stated only as the value it computes.
- OverflowGuards.GuardNeeded: among nodes exactly as far as the nearest goal, which ones the search still visits depends on their names and on zero-cost edges, so the guard in terms of the graph is exact up to those ties; `Budget.LabelsHonestIff` is exact in terms of the visits.
- Verifier.CheckReachability: `parallel` collections are taken to hold fewer than `math.MaxInt` items.
- Verifier.CheckTargetStateReachability: the example path to some terminal state that the error text shows (workflow/compile_reachability.go:335-358) is not modelled.
- OutcomeSchemas.CtyToSchemaNode: capsule types, which the converter refuses, are left out, and defaults are given as the JSON they are written as.
- Diagnostic wording, source ranges, severities other than error and warning, and suggestion ranking.
- OutcomeRouting.RunStepFromAttempt: how an attempt ends is given; cancellation, visit limits, crashed sessions and output projection are left out, and so are steps that iterate.
- FsmGraph, TaintFlow and Subworkflows keep node flags and seen names as sets of names; pointers to step and local nodes are not modelled.
- Subworkflows: workflow names in the load chain, input bindings, merged pin sets and file caches, and the diagnostics of the other compile passes.
- OutcomeSchemas.SubtypingSoundIff: a null where a typed part of the producer is expected is not counted as a payload; a set is an array whose elements need not be distinct.
- MergedSource: merging of declarations, singleton conflicts and duplicate names across files.
- PauseProtocol.DrainReturnsCanceledEntrants: deadlines and timers are free choices of when a drain moves on; calls are identified by serial numbers instead of pointers.
- PermissionStates: JSON encoding, clocks, audit file output, and the delivery and closing of the event channel (a send is only attempted).
- McpProgress.Session.RegisterExec: the counter is unbounded; the source's wraps after 2^64 executes.
- McpProgress, McpPermissions: MCP transport, tool discovery, contexts and what a sink does with an event. Ids are arbitrary strings, not UUIDs.
- Names: strings are compared by character; the source compares bytes of UTF-8, which orders valid text the same way.
- The rest of the engine, the session manager, the lockfile, version constraints, redaction and policy tables: not part of this model.
