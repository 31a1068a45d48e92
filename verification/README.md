# Verification model of the workflow planner, its protocols and the loop controller

The project models three parts of the repository in Dafny and proves what they promise.

**Planning and lowering.** A nested workflow of executable nodes (agents, builtins, commands), parallels with children
and groups naming members is validated, sorted, batched and flattened into an Argo task graph in which containers no
longer exist. `EventOrder` gives the nested workflow an independent meaning: a partial order on the start and end
events of its nodes. `Lowering`, `Unrolling`, `ArgoGraph`, `FlatGraph`, `LeafOrder`, `PlanOrder` and `PlanMeaning` prove when the flat
graph means the same, when it has a cycle and when there is one at all. `CycleFinder`, `DependencyGraph`, `Batches` and `Compile` prove the two iterative depth-first searches, the level
batching and the compiler; `Reachability`, `ScheduleChecks`, `FollowOrder` and `TicketPlan` prove the checks built on them and the
deterministic schedule that passes them.

**Promise-chain protocols.** `EventSink`, `WriteQueue`, `RunStateLock`, `RuntimeProjection` and `RuntimeReporter` model
each closure as a class whose methods are the uninterrupted pieces of its execution, and as a step relation in which
every `await` is a point where other steps may interleave. Each method is proved to perform one step of the relation;
the theorems are about every reachable state. `LoopController` proves the controller's whole traces against an
environment that may answer anything, `LoopSelection` what it selects under the readiness rule of tickets.

**Text and search.** `CodexSections`, `CodexFeatures`, `CodexConfig`, `CodexTables` and `CodexOpenings` prove the Codex
configuration merge over arbitrary text and compare it with a reading of the text's tables, `RepoMap` the token-budget
search, `GeneratedIds` the fresh id generation.

## Findings

Properties that the code does not have for every input; each has a concrete input and, for all inputs, the exact
condition under which the property does hold.

- A group nested in a parallel that names nothing inside that parallel loses the parallel's needs when it is lowered: a
  task downstream of the parallel may start before they have ended, although the compiler accepts the plan
  (`Counterexamples.EscapingGroupLosesOrder`). The order of all executable nodes is kept exactly when the planned leaves
  are anchored, a condition on the declared containers and needs (`PlanOrder.OrderKeptExactly`, end to end
  `PlanMeaning.WorkflowOrderExact`), which scoped plans always meet (`PlanMeaning.WorkflowOrderPreserved`).
- Resolution has no visited set, so a container that expands to itself exhausts the stack: a parallel whose only child is
  a group that names the parallel compiles, and lowering it overflows once a task needs the parallel
  (`Counterexamples.NeededRingOverflows`), while the same containers lower normally when no task needs them
  (`Counterexamples.FreeRingCompiles`). Lowering overflows exactly when the first task that fails has an own or inherited
  need downstream of such a container (`ArgoGraph.CompileOutcome`, `Unrolling.OverflowExact`).
- Both traversals end a list of ids at its first falsy entry. The cycle finder thereby misses cycles behind an empty id
  (`Counterexamples.EmptyIdHidesCycle`), and the sort rejects, with its own error instead of an issue, every node set in
  which a node needs the empty id, cyclic or not (`Counterexamples.EmptyNeedIsRejected`,
  `Counterexamples.CompileEmptyIds`). The finder is exact on the needs it sees (`CycleFinder.FindDependencyCycles`), and
  compilation succeeds exactly for declared, acyclic nodes none of which needs the empty id
  (`Compile.CompileWorkflowPlan`).
- Hook ids are shared by all nodes, and one entry per id remembers the status to restore. Overlapping hooks of one id on
  two nodes therefore swap statuses: a passed node ends failed, a failed one running
  (`RuntimeProjection.OverlappingHooksSwap`). A status is restored exactly when the entry still holds it, or is gone and
  the status was "running", or the hook is blocked (`RuntimeProjection.HookRestores`). A hook on a node without a status
  even writes what an earlier unfinished hook left (`RuntimeProjection.StaleHookLeaks`), and otherwise "running"
  (`RuntimeProjection.UnobservedHook`).
- A flush drops every failure in its range and throws only the lowest, so when two writes fail before a flush covers both,
  nobody reports the second (`WriteQueue.SecondFailureUnreported`). A failure is thrown by some flush exactly when it is
  the lowest undrained one at the moment the first flush that covers it resumes (`WriteQueue.ThrownExactly`).
- Removing a gateway section goes by two different header tests. A table whose header carries a comment is removed with
  the section before it (`CodexSections.CommentedHeaderLost`); a gateway section whose own header carries one stays
  (`CodexSections.CommentedOwnKept`), so that the merged text opens that table twice
  (`CodexOpenings.CommentedGatewayTwice`); and a line of a nested array can end the removal inside a value
  (`CodexSections.NestedArrayStays`). For any reading of the text, exactly the section's lines are removed if and only if
  no line is misread (`CodexSections.RemovalExact`); for the reading by single lines that means no own header overlooked
  and no other header running on (`CodexSections.LineRemovalExact`).
- Setting the hooks key has the same weakness: behind the features table the key of a table with a commented header is
  overwritten and the features table gets none (`CodexTables.OtherTableOverwritten`), and a features table whose own
  header carries a comment is added a second time (`CodexTables.CommentedFeaturesAddedTwice`). The features table is set,
  and nothing but the table, exactly under `CodexTables.SetsTable` (`CodexTables.FeatureTableExact`), in particular when
  every header ends its line (`CodexTables.PlainHeadersSet`).
- Compilation looks for cycles at the top level only, so two children of a parallel that need each other are accepted and
  the execution graph compiles with a cycle (`Counterexamples.BoxedCycleCompiles`). Whatever compiles is acyclic, with a
  terminal task downstream of every task, exactly when no executable node of the declared plan sees itself through needs,
  inherited needs, members and children (`FlatGraph.CompiledExactly`), as in every plan that some execution can meet
  (`PlanOrder.ForestSeesNoCycle`).
- The dependency check of work units follows needs and enclosing parallels only. It reports a missing edge although the
  order holds when the target sits in a parallel that needs the prerequisite, or needs a group with the prerequisite as a
  member (`FollowOrder.OrderedYetReported`). It links a node to a prerequisite exactly along paths of the event order that
  enter no parallel from outside and use no membership (`FollowOrder.LinkedExactly`).
- The breadth-first search tests one node for each id, and the checks built on it run before any test for repeated ids:
  a merge after a parallel goes unseen, and the parallel is reported, if a nested node under the merge's id is met first
  (`Counterexamples.MergedYetReported`). The search is right about every match exactly when no two nodes downstream share
  an id (`Reachability.SearchExact`), and the check of parallels is right whatever counts as a merge exactly when that
  holds after every parallel with several writers (`ScheduleChecks.FlaggedExactly`).
- Persisting an event catches typed failures only. A defect, such as the exception that an event with an empty node id
  raises inside `Effect.sync` (`src/run-control/store.ts:316`), rejects the write, and the reporter's flush throws it
  (`RuntimeReporter.DefectBreaksFlush`). A flush throws exactly when a defect escaped from a write in its range that no
  earlier flush has drained (`RuntimeReporter.FlushReturns`, over whole runs `RuntimeReporter.CallSettles`); typed
  failures never show (`RuntimeReporter.PersistenceInvisible`).
- The comment in `src/loop/controller.ts:261-266` says that dependents of a blocked ticket stay unready. That holds for
  dependencies, but a parent whose unfinished child is blocked becomes ready, because the child is missing from the view,
  and every strategy selects it (`LoopSelection.ParentOfBlockedSelected`); a selected ticket may run exactly when none of
  its unsettled children is blocked (`LoopSelection.SelectedMayRunExactly`).

## Model

| member | source | states |
|---|---|---|
| Workflow.DependentsByNeed | src/planning/graph.ts:71-83 | the index lists, under every id, exactly the nodes that declare it as a need, in declaration order, once per mention |
| Workflow.DependentsInOrder | src/planning/graph.ts:75-81 | the dependents of a need stand in the order of declaration, each as often as it declares the need |
| Workflow.UniqueStrings | src/strings.ts:6-16 | the result has the same members as the input and no duplicate |
| Workflow.UniqueInOrder | src/strings.ts:14-14 | each value once, in the order of the first occurrences |
| CycleFinder.CycleVisitState.MarkVisiting | src/planning/graph.ts:267-271 | pushes one node on the path, keeping marks, path index, path edges and recorded cycles consistent |
| CycleFinder.CycleVisitState.MarkDone | src/planning/graph.ts:273-277 | pops the path's last node once all its dependents are finished or recorded in a cycle with it |
| CycleFinder.CycleVisitState.RecordCycle | src/planning/graph.ts:279-291 | records exactly the part of the path from the revisited node on, unless a cycle with the same members is recorded; the closing edge lies inside a recorded cycle afterwards |
| CycleFinder.CycleVisitState.VisitForCycles | src/planning/graph.ts:293-323 | the iterative visit terminates, empties its path and finishes every node it reached; every edge it passed leads to an earlier finished node or lies inside a recorded cycle |
| CycleFinder.BuildAdjacency | src/planning/graph.ts:336-346 | the adjacency is the declared dependents' ids of every node |
| CycleFinder.AdjacencyEdges | src/planning/graph.ts:299-311 | the edges the search can follow are exactly the declared needs it sees: a need is hidden when its node, or an earlier one with the same need, has an empty id |
| CycleFinder.SeenAll | src/planning/graph.ts:305-307 | what the search sees are declared needs, and all of them exactly when no node with an empty id has a need |
| CycleFinder.FindDependencyCycles | src/planning/graph.ts:335-368 | every returned list is a genuine cycle, no two have the same members, and without the edges inside returned cycles the needs it sees are acyclic |
| CycleFinder.NoneRecorded | src/planning/graph.ts:325-334 | the finder returns nothing exactly when there is no cycle |
| CycleFinder.CycleMeetsRecorded | src/planning/graph.ts:325-334 | every cycle of the graph has two consecutive nodes inside one returned cycle |
| DependencyGraph.CreateDependencyGraph | src/planning/graph.ts:117-129 | nodes in declaration order, and an edge exactly for every need that names a declared node |
| DependencyGraph.TopologicalVisit.PushTopologicalFrame | src/planning/graph.ts:381-395 | pushes one unvisited node, keeping the stack a path and every visited node upstream of a sink |
| DependencyGraph.TopologicalVisit.CompleteTopologicalFrame | src/planning/graph.ts:370-379 | pops a node after all its predecessors, so the results stay in dependency order |
| DependencyGraph.TopologicalVisit.VisitForTopologicalOrder | src/planning/graph.ts:397-446 | a visit ends with an empty stack and its sink visited, or signals a cycle that exists; it terminates by unvisited nodes, stack height and unread predecessors |
| DependencyGraph.StackHit | src/planning/graph.ts:404-406 | a predecessor found on the stack closes a cycle |
| DependencyGraph.AllOrNotAll | src/planning/graph.ts:465-467 | the visited count equals the node count exactly when every node is upstream of a sink, and then the results order all nodes and the graph is acyclic |
| DependencyGraph.TopologicalDependencyOrder | src/planning/graph.ts:448-470 | a result lists every node once with all predecessors earlier; there is a result exactly when the graph is acyclic and every node reaches a sink |
| Batches.ReadyDepth | src/planning/graph.ts:483-489 | a ready node's longest dependency chain is exactly as long as the number of batches so far |
| Batches.Stuck | src/planning/graph.ts:490-492 | when nothing is ready, the remaining ids contain a cycle |
| Batches.LayeringAcyclic | src/planning/graph.ts:475-499 | a layering of all ids leaves no room for a cycle |
| Batches.ToSortedIsSorted | src/planning/graph.ts:489-489 | sorting keeps the members and orders them by any consistent comparator |
| Batches.DependencyBatches | src/planning/graph.ts:475-499 | batches partition the ids, batch k holds in comparator order the ids whose longest chain inside the set has k edges; the result is empty exactly when the set is empty or cyclic |
| Compile.DuplicateNodeIssues | src/planning/compile.ts:111-128 | one issue for every node whose id an earlier node has |
| Compile.Duplicates | src/planning/compile.ts:111-128 | there are none exactly when the ids are unique |
| Compile.NormalizedMeans | src/planning/compile.ts:187-196 | a group gains its members as needs, in front of its own and each once; everything else stays as declared |
| Compile.DependencyIssues | src/planning/compile.ts:130-142 | there are none exactly when every need is declared; which node and need an issue names is in Compile.ReportedTruthful |
| Compile.DependencyIssuesAppend | src/planning/compile.ts:130-142 | missing dependencies are listed node after node |
| Compile.MissingNeedsAppend | src/planning/compile.ts:130-142 | and for each node in the order of its needs |
| Compile.GroupIssues | src/planning/compile.ts:144-208 | there are none exactly when every group has members, all of them declared and other than itself |
| Compile.GroupIssuesAppend | src/planning/compile.ts:198-208 | group issues are listed node after node |
| Compile.MemberIssuesAppend | src/planning/compile.ts:144-183 | and for each group in the order of its members |
| Compile.SingleIssues | src/planning/compile.ts:130-208 | a node reports the issues of its own mentions, a group without members that alone, and one mention at most one issue |
| Compile.ValidateNodeGraph | src/planning/compile.ts:222-237 | the issues are the duplicate, group, dependency and cycle issues in this order, and each kind is listed exactly for the nodes, members, needs and cycles at fault; there are none exactly for declared nodes without a cycle among the needs the finder sees |
| Compile.ReportedTruthful | src/planning/compile.ts:111-237 | an issue is listed if and only if it holds: node `i` with need `d` is named exactly when some node `i` needs `d` and nothing has the id `d`, and so for empty groups, missing and own members, repeated ids and found cycles |
| Compile.CreateWorkflowGraph | src/planning/compile.ts:378-392 | every node's value holds the node, its position and the graph's successors as dependents |
| Compile.SortAgrees | src/planning/compile.ts:442-458 | for every declared node set, the sort succeeds exactly when the needs are acyclic and none names the empty id |
| Compile.PlannedNeedsEarlier | src/planning/compile.ts:454-457 | in every compiled plan every need, and every member of a normalized group, stands earlier in the order |
| Compile.PlannedDependents | src/planning/compile.ts:378-392 | dependents is the exact inverse of needs |
| Compile.BuildParallelBatches | src/planning/compile.ts:252-263 | the planned batches are the level batches of the order's ids |
| Compile.PlannedBatches | src/planning/compile.ts:252-263 | batch k holds, by declaration position, exactly the nodes whose longest need chain has k edges; together they are the order |
| Compile.CompileWorkflowPlan | src/planning/compile.ts:429-468 | for every input: succeeds exactly on declared workflows, acyclic in needs and group members together, that mention no empty id, always with a sound plan; a rejection lists exactly the issues that hold, if there are some, and is otherwise the sort's own error |
| Compile.AcceptableMeans | src/planning/compile.ts:187-196 | normalizing loses nothing: a workflow is acceptable as declared exactly when its normalized nodes are declared, acyclic and need no empty id |
| DependencyRefs.IndexPlannedNodesById | src/planning/dependency-refs.ts:8-17 | the loop over nested children fills the index that the recursive definition gives |
| DependencyRefs.IndexFinds | src/planning/dependency-refs.ts:4-17 | without repeated ids every node of the forest is found under its id, and nothing else |
| DependencyRefs.ResolveMembers | src/planning/dependency-refs.ts:31-68 | resolving a list is the union of resolving its ids |
| DependencyRefs.ResolveContainer | src/planning/dependency-refs.ts:46-60 | a container stands for what its members, needs or children stand for |
| EventOrder.IntoStart | src/planning/compile.ts:187-196 | what precedes a start: the ends of needs and members, or the start of the enclosing parallel |
| EventOrder.PlaceFacts | src/argo-graph.ts:185-197 | inherited needs are those of the enclosing parallels, outermost first |
| Lowering.CompilesPlaces | src/argo-graph.ts:171-200 | the accumulating reduction yields the executable nodes in preorder, each with its inherited needs |
| Lowering.ForestResolvable | src/planning/dependency-refs.ts:35-66 | if some execution can meet all constraints, resolution terminates |
| Lowering.StandsBefore | src/planning/dependency-refs.ts:31-68 | whatever an id resolves to is executable and ends no later than the id's own node |
| Lowering.InheritedBefore | src/argo-graph.ts:190-197 | everything among a node's own and inherited needs ends before the node starts |
| Lowering.DepsBefore | src/argo-graph.ts:144-169 | task reachability implies event order |
| Lowering.EndCovered | src/argo-graph.ts:171-200 | what ends before a node's end is upstream of what the node stands for, if every nested group holds on to its container |
| Lowering.StartCovered | src/argo-graph.ts:154-169 | what ends before a node starts is upstream of one of its own or inherited dependencies |
| ArgoGraph.LoweringExact | src/argo-graph.ts:171-200 | node for node, containers included, the flat graph puts upstream what ends earlier exactly when every nested group is anchored in the flat graph |
| ArgoGraph.NamedReach | src/argo-graph.ts:73-73 | reachability between task names is reachability between node ids |
| LeafOrder.ExactIsFlatAnchored | src/argo-graph.ts:185-186 | the anchoring of leaves is necessary |
| LeafOrder.LeafReaches | src/argo-graph.ts:144-200 | the anchoring of leaves is sufficient: whatever ends before a task starts is upstream of it |
| LeafOrder.LeafOrderExact | src/argo-graph.ts:144-220 | for every forest, event order and dependency reachability agree on all pairs of executable nodes exactly when the leaves are anchored in the flat graph |
| FlatGraph.SeenIsUpstream | src/argo-graph.ts:144-200 | in any plan without repeated ids, what an id sees in the declared plan (needs, inherited needs, members and children) is what is upstream of the tasks it stands for |
| FlatGraph.SeenIsReached | src/argo-graph.ts:144-200 | whatever a lowering yields, dependencies lead from one task to another exactly when the declared plan lets the other see it |
| FlatGraph.AcyclicExactly | src/argo-graph.ts:154-200 | whatever a lowering yields has no cycle exactly when no executable node of the declared plan sees itself |
| PlanOrder.ForestSeesNoCycle | src/argo-graph.ts:202-220 | that is so in every plan whose constraints some execution can meet |
| PlanOrder.NodeOrderExact | src/argo-graph.ts:171-200 | node for node the lowering is faithful exactly when the declared groups are anchored |
| PlanOrder.OrderKeptExactly | src/argo-graph.ts:144-220 | for every forest, event order and the compiled tasks' dependency names agree on all pairs exactly when the declared leaves are anchored |
| ArgoGraph.TasksInPreorder | src/argo-graph.ts:98-107 | the tasks are the executable nodes of the flattened plan, in preorder |
| ArgoGraph.TaskNamesDistinct | src/argo-graph.ts:73-73 | no two tasks share a name |
| ArgoGraph.TasksClosed | src/argo-graph.ts:144-152 | every dependency names a task |
| ArgoGraph.TerminalDependencyItems | src/planning/graph.ts:183-192 | exactly the tasks that no task depends on |
| ArgoGraph.ReachesTerminal | src/argo-graph.ts:209-213 | in any task list without a cycle every task reaches a terminal task |
| ArgoGraph.FirstDuplicate | src/argo-graph.ts:109-131 | the first id that repeats an earlier one, and none exactly when ids are unique |
| ArgoGraph.CompileArgoExecutionGraph | src/argo-graph.ts:222-230 | a duplicate-id error names the first repeated id |
| Unrolling.ResolutionEnds | src/planning/dependency-refs.ts:35-66 | resolving an id exhausts every stack exactly when a container that expands to itself is upstream of it, and otherwise needs at most one frame per node |
| Unrolling.ResolvedStandsFor | src/planning/dependency-refs.ts:35-68 | where resolution ends it yields exactly the tasks the id expands to, at any depth |
| Unrolling.ResolutionAgrees | src/planning/dependency-refs.ts:35-66 | where no container expands to itself it is the unbounded resolution |
| Unrolling.TryCompileExact | src/argo-graph.ts:154-200 | lowering stops at the first place in preorder that fails, with the error of that place: resolution first, then the empty id |
| Unrolling.TryCompileLowers | src/argo-graph.ts:154-200 | a lowering that ends yields one task per executable place, named `node-<id>` with template `task-<id>`, with the names of exactly the tasks its needs stand for, in the order of the needs, whatever the rest of the plan resolves to |
| Unrolling.ResolvedInOrder | src/planning/dependency-refs.ts:31-68 | what the first of some needs stand for is resolved before what only later ones add |
| Unrolling.OverflowExact | src/argo-graph.ts:159-162 | where every task has an id, lowering overflows exactly when some task needs, itself or by inheritance, what lies downstream of a container that expands to itself |
| ArgoGraph.CompileOutcome | src/argo-graph.ts:202-230 | for every plan: a duplicate error exactly for repeated ids, an overflow exactly when the first failing place overflows, a graph exactly when no place fails, there is a task, and the workflow has an id |
| ArgoGraph.CompiledMeans | src/argo-graph.ts:73-230 | whatever compiles lists one task per executable node in preorder with distinct names and exact dependencies, dangles nowhere, names every template apart and after its node, and lists exactly the terminal tasks, once and in order, by id and by name |
| FlatGraph.CompiledExactly | src/argo-graph.ts:202-230 | every compiled graph is in order, acyclic with a terminal task downstream of each task, exactly when no executable node of the declared plan sees itself |
| Scoping.ScopedForest | src/planning/compile.ts:187-208 | sibling references and acyclic levels make the constraints of the whole tree satisfiable |
| Scoping.ScopedHeld | src/argo-graph.ts:185-186 | in scoped plans every nested group holds on to its container |
| PlanMeaning.NormalizedFlat | src/planning/compile.ts:187-196 | normalizing groups changes no constraint |
| PlanMeaning.Reordered | src/planning/compile.ts:454-457 | reordering the top level changes neither the nodes nor the uniqueness of ids |
| PlanMeaning.ValidatedScoped | src/planning/compile.ts:222-237 | validation supplies at the top level what scoping asks of every level |
| PlanMeaning.WorkflowOrderPreserved | src/planning/compile.ts:187-208 | scoped nested levels are enough for the planned leaves of a compiled workflow to be anchored, and so for its tasks to be ordered as declared |
| PlanMeaning.WorkflowOrderExact | src/argo-graph.ts:222-230 | end to end, for every workflow that compiles and whose constraints can be met: all executable nodes are ordered as declared exactly when the planned leaves are anchored |
| PlanMeaning.WorkflowGraphOk | src/run-control/run-record.ts:49-52 | for every such workflow the execution graph compiles exactly when there is an executable node, the workflow has an id and so does every executable node; then it is sound and lists the flattening the run manifest uses |
| PlanMeaning.ScopedSatisfiable | src/planning/compile.ts:187-208 | scoped nested levels are enough for the constraints of a compiled workflow to be met, and any node at all supplies a task |
| Counterexamples.EscapingGroupLosesOrder | src/argo-graph.ts:185-186 | an accepted plan whose flat graph lets a node start before what gates it has ended |
| Counterexamples.NeededRingOverflows | src/planning/dependency-refs.ts:46-60 | an accepted plan whose lowering exhausts the stack |
| Counterexamples.FreeRingCompiles | src/argo-graph.ts:185-197 | self-expanding containers that no task needs compile |
| Counterexamples.BoxedCycleCompiles | src/planning/compile.ts:222-237 | an accepted plan whose execution graph compiles with a cycle |
| Counterexamples.EmptyIdHidesCycle | src/planning/graph.ts:305-307 | declared nodes with a cycle that the finder does not see |
| Counterexamples.EmptyNeedIsRejected | src/planning/graph.ts:424-427 | declared, acyclic nodes one of which needs the empty id |
| Counterexamples.CompileEmptyIds | src/planning/compile.ts:442-453 | compilation rejects both with the sort's own error |
| Reachability.HasReachableDependent | src/planning/graph.ts:199-218 | for every index and match, true exactly when one of the nodes that the search tests matches; terminates on cyclic input |
| Reachability.TestedDownstream | src/planning/graph.ts:206-215 | the tested nodes lie one or more index steps away, one for each id that does |
| Reachability.SearchExact | src/planning/graph.ts:199-218 | the answer is right for every match exactly when no two nodes downstream share an id, and for a match that goes by id always |
| Reachability.VisitedAll | src/planning/graph.ts:204-216 | when the queue is empty everything downstream was visited |
| ScheduleChecks.AddParallelContainmentEdges | src/planning/generate.ts:656-670 | adds to every child's entry exactly the parallels around it, at every depth |
| ScheduleChecks.DependentsByNeedWithContainment | src/planning/generate.ts:672-679 | the index lists the declared dependents followed by the enclosing parallels |
| ScheduleChecks.ContainersInOrder | src/planning/generate.ts:642-670 | the parallels are registered in preorder, each as often as one of its children has the id |
| ScheduleChecks.DownstreamMeans | src/planning/generate.ts:642-679 | index reachability is following along needs and containments |
| FollowOrder.FollowsExactly | src/planning/generate.ts:642-679 | a node follows another exactly when it ends later along the event order without entering a parallel from outside or using a membership; so it always ends later |
| FollowOrder.LinkedExactly | src/planning/generate.ts:879-885 | the work-unit check links a node to a prerequisite exactly along such a path from one of the prerequisite's nodes |
| FollowOrder.EnteredUnseen | src/planning/generate.ts:879-885 | an order through a parallel's own needs that the check must see and does not |
| FollowOrder.MembershipUnseen | src/planning/generate.ts:879-885 | an order through a group's members that the check must see and does not |
| FollowOrder.OrderedYetReported | src/planning/generate.ts:848-896 | the check reports both although the order holds in every execution |
| ScheduleChecks.UnsafeParallelWorktreeIssues | src/planning/generate.ts:823-846 | for any schedule, an issue exactly for each place of a parallel with two writing children after which the search tests no merge, in the order of the nodes |
| ScheduleChecks.FlaggedExactly | src/planning/generate.ts:823-846 | no parallel with two writing children and no merge after it goes unnoticed; whatever counts as a merge, exactly these are reported if and only if no two nodes after a parallel with two writing children share an id |
| ScheduleChecks.KeptTwo | src/planning/generate.ts:833-838 | the count of writing children exceeds one exactly when two children at different positions write |
| Counterexamples.MergedYetReported | src/planning/generate.ts:681-691 | an accepted plan whose writers a merge follows and the check reports |
| ScheduleChecks.HasDependencyPath | src/planning/generate.ts:879-885 | for any schedule, true exactly when a node with the target's id follows some node of the prerequisite unit |
| ScheduleChecks.WorkUnitDependencyIssues | src/planning/generate.ts:848-896 | for any schedule, an issue exactly for each implementation node and in-scope prerequisite none of whose nodes is followed under its id |
| ScheduleChecks.MissingAssignedWorkUnits | src/planning/generate.ts:905-923 | exactly the units that no node is assigned to, and any unit with an empty id |
| ScheduleChecks.MissingInOrder | src/planning/generate.ts:917-919 | they are listed in the order of the units, once per unit |
| GeneratedIds.GeneratedWellShaped | src/strings.ts:27-37 | a generated id starts with a letter, holds only lower-case letters, digits and hyphens, and does not end in a hyphen |
| GeneratedIds.GeneratedExactly | src/strings.ts:27-37 | an id is the words of its text, the runs of letters and digits, joined by single hyphens, behind the fallback prefix if the first starts with a digit, and the prefix alone if there is no word |
| GeneratedIds.SlugIsWords | src/strings.ts:27-32 | replacing every run of other characters and trimming hyphens joins the words by single hyphens |
| GeneratedIds.ShapedKept | src/strings.ts:27-37 | a well-shaped text whose hyphens stand singly keeps its text |
| GeneratedIds.CandidatesDiffer | src/strings.ts:50-55 | no two numbered candidates are equal |
| GeneratedIds.CandidateMeans | src/strings.ts:50-55 | the first candidate is the base itself; the later ones end in a hyphen and a decimal number without leading zeros that counts from two |
| GeneratedIds.TriedBound | src/strings.ts:52-55 | at most as many candidates as used ids can be taken |
| GeneratedIds.UniqueGeneratedId | src/strings.ts:44-58 | the first free candidate, found within one try more than there are used ids, and reserved |
| TicketPlan.NameUnits | src/planning/generate.ts:417-423 | unique units get well-shaped, pairwise different node ids: unit by unit the first candidate for the text `<unit id>-implement` that no earlier unit has |
| TicketPlan.TicketPlanSchedule | src/planning/generate.ts:394-447 | one agent node per unit, needing the nodes of its in-scope dependencies in order |
| TicketPlan.NodeIdsInOrder | src/planning/generate.ts:425-428 | the needs of a node stand in the order of its unit's dependencies, without those that name no unit |
| TicketPlan.PlanUniqueIds | src/planning/generate.ts:417-437 | the schedule's node ids are unique and well shaped |
| TicketPlan.NeedsMirror | src/planning/generate.ts:424-428 | needs mirror the in-scope dependencies exactly |
| TicketPlan.PlanAcyclic | src/planning/generate.ts:424-437 | the schedule is acyclic exactly when the unit dependencies are |
| TicketPlan.NoMissingUnits | src/planning/generate.ts:905-923 | the schedule passes the missing-unit check |
| TicketPlan.NoMissingEdges | src/planning/generate.ts:848-896 | the schedule passes the unit-dependency check, whatever counts as an implementation node |
| EventSink.MappedIsNumbered | src/runner-command-contract.ts:521-544 | a plan yields its own record and one for every edge, a session none, any other event one, numbered without a gap from the given sequence |
| EventSink.StepKeeps | src/runner-event-sink.ts:145-295 | every step keeps conservation, serialization, delivery and wakefulness, and the bound on postings |
| EventSink.EveryRun | src/runner-event-sink.ts:145-295 | in every interleaving, acknowledged records followed by the queue are everything recorded, in order, numbered 1 to n, and no posting exceeds the batch size |
| EventSink.OneDrains | src/runner-event-sink.ts:192-201 | at most one flush has a batch in flight |
| EventSink.FlushMoves | src/runner-event-sink.ts:166-178 | a successful post acknowledges just its batch and takes it off the queue, a failed one loses nothing; a flush ends exactly when nothing is queued and otherwise posts as much of the front as a batch holds |
| EventSink.FlushDelivers | src/runner-event-sink.ts:192-201 | counted in the steps of a run alone: once the flush asked for by a step has succeeded, everything recorded before that step is acknowledged, and what is acknowledged is always a prefix of what the run recorded, in order and numbered from 1 |
| EventSink.InternalStepsEnd | src/runner-event-sink.ts:159-219 | left alone, the sink comes to rest |
| EventSink.RestingIsDrained | src/runner-event-sink.ts:203-219 | at rest everything is acknowledged unless the last flush failed |
| EventSink.RunnerEventSink.ScheduleFlush | src/runner-event-sink.ts:209-219 | schedules a microtask unless one is pending |
| EventSink.RunnerEventSink.RecordRuntimeEvent | src/runner-event-sink.ts:221-230 | performs the recording step: queue, sequence and schedule |
| EventSink.RunnerEventSink.RecordPair | src/runner-event-sink.ts:239-258 | performs the recording step of two records numbered by the envelope counter |
| EventSink.RunnerEventSink.MicrotaskRuns | src/runner-event-sink.ts:215-218 | clears the flag and appends a flush to the chain |
| EventSink.RunnerEventSink.RequestsFlush | src/runner-event-sink.ts:192-201 | performs the request step: a flush that covers everything recorded so far joins the chain |
| EventSink.RunnerEventSink.LoopHead | src/runner-event-sink.ts:166-178 | slices the next batch, or ends the flush when nothing is queued |
| EventSink.RunnerEventSink.PostSettles | src/runner-event-sink.ts:173-176 | a success removes exactly the posted batch; a failure leaves the queue as it is |
| WriteQueue.StepKeeps | src/serialized-write-queue.ts:22-68 | every step keeps the order of writes, the exact ledger and the soundness of flushes |
| WriteQueue.EveryRun | src/serialized-write-queue.ts:22-68 | the invariant in every interleaving |
| WriteQueue.OneRuns | src/serialized-write-queue.ts:35-45 | writes run one at a time |
| WriteQueue.LedgerAscends | src/serialized-write-queue.ts:41-44 | the failure list is strictly ascending by sequence |
| WriteQueue.DrainSplits | src/serialized-write-queue.ts:59-62 | a flush finds the lowest failure not drained before and leaves exactly those beyond its range |
| WriteQueue.FlushOutcome | src/serialized-write-queue.ts:54-66 | a flush settles after all its writes have run and throws the lowest failure in its range above what earlier flushes drained, exactly when there is one; which writes are in its range is in WriteQueue.CallSettles |
| WriteQueue.CallSettles | src/serialized-write-queue.ts:47-67 | counted in the steps of a run alone: by the step in which a flush settles, every write enqueued before its call has ended, and it throws exactly if one of these ended in an error and no flush resumed before covers it, namely the lowest |
| WriteQueue.CallFixesRange | src/serialized-write-queue.ts:54-57 | the range of a flush is what was enqueued before its call, for as long as the run lasts |
| WriteQueue.WritesOfRun | src/serialized-write-queue.ts:40-44 | every write is as the run ended it: once, and with the error it then had |
| WriteQueue.DrainedOnce | src/serialized-write-queue.ts:54-66 | over whole runs a write is drained by exactly one flush once it is drained, and by none before |
| WriteQueue.ThrownExactly | src/serialized-write-queue.ts:54-66 | over whole runs a failure is thrown by some flush exactly when it was the lowest undrained one as the first flush covering it resumed |
| WriteQueue.SecondFailureUnreported | src/serialized-write-queue.ts:59-62 | a run in which a failure is covered by two flushes and thrown by none |
| WriteQueue.NeverStuck | src/serialized-write-queue.ts:35-45 | a failed write does not stop the queue |
| WriteQueue.RestingIsSettled | src/serialized-write-queue.ts:35-66 | the queue comes to rest only with every write finished and every flush settled |
| WriteQueue.SerializedWriteQueue.EnqueueWrite | src/serialized-write-queue.ts:48-52 | takes the next sequence and appends a write to the chain |
| WriteQueue.SerializedWriteQueue.PreviousSettled | src/serialized-write-queue.ts:40-41 | performs the starting step |
| WriteQueue.SerializedWriteQueue.WriteSettles | src/serialized-write-queue.ts:40-44 | performs the finishing step, noting a failure under its sequence |
| WriteQueue.SerializedWriteQueue.FlushCalled | src/serialized-write-queue.ts:54-57 | performs the calling step, whose range WriteQueue.CallFixesRange ties to the writes enqueued before it |
| WriteQueue.SerializedWriteQueue.RemoveFailuresThrough | src/serialized-write-queue.ts:27-33 | the backward splice loop removes exactly the failures up to the sequence |
| WriteQueue.SerializedWriteQueue.DrainSettled | src/serialized-write-queue.ts:54-66 | performs the flush's resumption and throws what the step says |
| RunStateLock.EveryRun | src/run-control/run-state-lock.ts:43-56 | grants follow the order of acquisition in every reachable state |
| RunStateLock.MutualExclusion | src/run-control/run-state-lock.ts:36-56 | at most one holder in every reachable state |
| RunStateLock.ReleaseTwice | src/run-control/run-state-lock.ts:49-55 | releasing again has no effect |
| RunStateLock.AllGranted | src/run-control/run-state-lock.ts:36-56 | if every holder releases, every waiter is granted |
| RunStateLock.GrantsAndReleasesEnd | src/run-control/run-state-lock.ts:36-56 | grants and releases come to an end, so that this state is reached |
| RunStateLock.ScopedUseDrains | src/run-control/run-state-lock.ts:58-66 | when every use is scoped, the lock comes to rest exactly when all tickets are granted and released |
| RunStateLock.LockChain.AcquireRequested | src/run-control/run-state-lock.ts:42-45 | performs the acquisition step: a ticket at the end of the chain |
| RunStateLock.LockChain.PreviousReleased | src/run-control/run-state-lock.ts:46-48 | performs the grant step |
| RunStateLock.LockChain.BodySettles | src/run-control/run-state-lock.ts:58-66 | the lock is released on success and on failure, and the error passes on |
| RunStateLock.LockChain.ReleaseCalled | src/run-control/run-state-lock.ts:49-55 | the guarded release function performs the release step |
| RuntimeProjection.ObservedIsLastWritten | src/run-control/runtime-event-projection.ts:91-104 | after any events the observed status of a node is the last status written for it |
| RuntimeProjection.LastEventDecides | src/run-control/runtime-event-projection.ts:147-185 | after any events a node has the status in which the last event about it leaves it: failed by a failing agent or node, passed by a passing node, blocked by a failing gate or a failing required hook, what a finished hook restores, and otherwise running |
| RuntimeProjection.EventWrites | src/run-control/runtime-event-projection.ts:150-201 | an event writes at most one intent, a session or the run's status exactly for the events that carry it |
| RuntimeProjection.ActiveIsRemembered | src/run-control/runtime-event-projection.ts:106-138 | the hook map holds what an independent reading of the history remembers |
| RuntimeProjection.FinishWrites | src/run-control/runtime-event-projection.ts:122-138 | what a hook's finish writes, for every history |
| RuntimeProjection.HookRestores | src/run-control/runtime-event-projection.ts:106-138 | for any events in between, a hook restores the status its node had at its start exactly when it is blocked, the entry under its id still holds that status, or the entry is gone and the status was running |
| RuntimeProjection.UndisturbedHookRestores | src/run-control/runtime-event-projection.ts:106-138 | it does so whenever no hook of this id starts or finishes in between |
| RuntimeProjection.OverlappingHooksSwap | src/runtime/hooks/events.ts:62-62 | overlapping hooks of one id on two nodes leave a passed node failed and a failed one running |
| RuntimeProjection.UnobservedHook | src/run-control/runtime-event-projection.ts:114-138 | a hook on a node without status leaves it running exactly when it is not blocked and no status but "running" is left under its id |
| RuntimeProjection.StaleHookLeaks | src/run-control/runtime-event-projection.ts:114-117 | a reused hook id writes another node's status |
| RuntimeReporter.StepKeeps | src/run-control/runtime-reporter.ts:220-277 | every step of projection, queue and lock together keeps the joint invariant |
| RuntimeReporter.EveryRun | src/run-control/runtime-reporter.ts:220-277 | the joint invariant in every interleaving |
| RuntimeReporter.AttemptsInEventOrder | src/run-control/runtime-reporter.ts:228-258 | attempted intents are a prefix of what the reported events project to, in event order |
| RuntimeReporter.FlushReturns | src/run-control/runtime-reporter.ts:228-268 | in any state a flush that settles finds the events of its range attempted, and throws exactly if a defect escaped from an undrained write in its range, namely the first such defect |
| RuntimeReporter.CallSettles | src/run-control/runtime-reporter.ts:228-268 | counted in the steps of a run alone: by the step in which a flush settles, every event reported before its call has been attempted, in order, and it throws exactly if one of their writes died of a defect and no flush resumed before covers it, namely the first |
| RuntimeReporter.RestingIsFlushed | src/run-control/runtime-reporter.ts:228-268 | if nobody else keeps the lock, the reporter comes to rest only with every event attempted and every flush settled |
| RuntimeReporter.DefectsOfRun | src/run-control/runtime-reporter.ts:236-257 | what escaped from a write is what the run says it died of: a write meets one fate |
| RuntimeReporter.DefectBreaksFlush | src/run-control/runtime-reporter.ts:236-268 | a run of one event whose flush returns after a typed failure and throws after a defect |
| RuntimeReporter.PersistenceInvisible | src/run-control/runtime-reporter.ts:242-247 | whichever writes meet a typed failure, runs take the same course with the same flush outcomes; only the log of skipped writes differs, and it lists exactly those |
| RuntimeReporter.PersistenceExcludesOthers | src/run-control/runtime-reporter.ts:249-257 | no write is persisted while someone else holds the lock |
| LoopController.SelectReadyChain | src/loop/controller.ts:256-292 | terminates and never returns a passed or blocked ticket |
| LoopController.SelectedFromView | src/loop/controller.ts:256-292 | a selected ticket belongs to the view it was selected from |
| LoopController.MergePart | src/loop/controller.ts:369-469 | the merge loop stays within its polling and remediation bounds and ends in exactly one terminal transition |
| LoopController.MergeDecided | src/loop/controller.ts:369-469 | exactly when the merge loop ends and how: at the first look that does not go on, passed when seen merged or landed by an admin merge, blocked only when a bound is spent or the admin merge did not land, after one update for every fixable look and one pause for every other |
| LoopController.PassedIsLanded | src/loop/controller.ts:411-469 | a pull request counts as passed exactly when it was seen merged or an admin merge landed it |
| LoopController.TicketPasses | src/loop/controller.ts:475-513 | a ticket passes exactly when its run succeeded, left a pull request, and that was seen merged |
| LoopController.TicketCourse | src/loop/controller.ts:475-513 | a ticket's course case by case: how far it gets and what it leaves |
| LoopController.TicketSegment | src/loop/controller.ts:475-513 | a resolved ticket leaves one well-formed segment with bounded submits, sleeps and merges |
| LoopController.SelectedInUniverse | src/loop/controller.ts:303-311 | each drain step resolves a new ticket of the universe, so the drain terminates |
| LoopController.DrainSegments | src/loop/controller.ts:515-554 | a drain resolves ticket after ticket, each selected in the state its predecessor left, and goes on until nothing can be selected or an effect fails; its trace is the row of their segments, and its summary counts the tickets of the final state |
| LoopController.RunTrace | src/loop/controller.ts:560-585 | every completed run emits start, snapshot, one segment per resolved ticket, and a finish that counts them; it goes on, from the initial backlog and through the refreshed ones, to a state in which nothing can be selected |
| LoopController.RunCutShort | src/loop/controller.ts:515-585 | the trace of a run that an effect cuts short, and where it was cut |
| LoopSelection.ReadyMeans | src/tickets/ticket-selection.ts:30-40 | in the overlaid graph a ticket is ready exactly when it is to do, not passed, and its dependencies and children are done or passed |
| LoopSelection.SelectedMayRun | src/loop/controller.ts:256-311 | a selected ticket has all dependencies done or passed and all children done, passed or blocked; without a root ticket nothing is selected only when no unresolved ticket may run |
| LoopSelection.SelectedMayRunExactly | src/loop/controller.ts:256-311 | a selected ticket may run exactly when none of its unsettled children is blocked |
| LoopSelection.RunEndsIdle | src/loop/controller.ts:515-585 | a completed run without a root ticket resolves only tickets that may run but for blocked children, and ends only when by the last backlog no unblocked ticket may run |
| LoopSelection.ParentOfBlockedSelected | src/loop/controller.ts:257-277 | under every strategy without a root ticket a parent is selected although its unfinished child is blocked |
| TextLines.SplitJoin | src/codex-config.ts:14-14 | splitting joined lines gives the lines back |
| TextLines.TrimEndLines | src/codex-config.ts:104-105 | trimming a text's end drops its blank last lines and trims the one before them |
| TextLines.TrimsTo | src/codex-config.ts:18-18 | a text trims to a given one exactly when it is that one between white space |
| CodexSections.RemoveTomlSection | src/codex-config.ts:13-30 | the loop keeps exactly the lines that no open removal covers |
| CodexSections.ClosesExactly | src/codex-config.ts:22-22 | a closing line starts with a bracket and, white space aside, ends in one |
| CodexSections.RemovingMeans | src/codex-config.ts:17-28 | a line is removed exactly when a header precedes it with no closing line in between |
| CodexSections.RemovalExact | src/codex-config.ts:13-30 | for any reading of the lines, exactly the sections' lines are removed, at every place, if and only if no line is misread where it stands |
| CodexSections.TwoRemovals | src/codex-config.ts:32-35 | one removal after another removes what a single pass with both headers does |
| CodexSections.LineRemovalExact | src/codex-config.ts:18-24 | by single lines: exactly when no header of the section is overlooked for its comment and no indented or commented header of another table follows it |
| CodexSections.CommentedHeaderLost | src/codex-config.ts:22-24 | a following table with a comment on its header is lost |
| CodexSections.CommentedOwnKept | src/codex-config.ts:18-21 | a section with a comment on its own header is not removed |
| CodexSections.NestedArrayStays | src/codex-config.ts:22-24 | a bracketed line of a multi-line value ends the removal inside the value |
| CodexFeatures.SectionOnlyKey | src/codex-config.ts:76-91 | after the step the section holds exactly one hooks key, and it says true |
| CodexFeatures.HeaderExactly | src/codex-config.ts:37-40 | a header, white space aside, starts and ends with a bracket |
| CodexFeatures.KeyExactly | src/codex-config.ts:49-50 | a key line is, up to an equals sign, the key between white space |
| CodexFeatures.SetLinesEnabled | src/codex-config.ts:52-95 | the step leaves the first features section, as the source delimits it, with exactly that key |
| CodexFeatures.EnabledFixed | src/codex-config.ts:52-95 | where that holds already, the step changes nothing |
| CodexFeatures.EnabledTrim | src/codex-config.ts:107-109 | trimming the text's end keeps it so |
| CodexFeatures.SetLinesOthers | src/codex-config.ts:72-94 | the step touches no line but the hooks keys of that section |
| CodexTables.FeatureTableExact | src/codex-config.ts:52-95 | for every text, the step changes the hooks keys of the features table, comments behind headers ignored, to exactly one that says true, or adds the table if there is none, and touches nothing else, if and only if `SetsTable` holds |
| CodexTables.TableSetReads | src/codex-config.ts:52-95 | the key then reads back from the features table of the result |
| CodexTables.PlainHeadersSet | src/codex-config.ts:37-50 | that is so whenever every header ends its line |
| CodexTables.OtherTableOverwritten | src/codex-config.ts:37-50 | the key of a following table with a commented header is overwritten |
| CodexTables.CommentedFeaturesAddedTwice | src/codex-config.ts:58-70 | a features table with a commented header is added again |
| CodexConfig.MergeCodexConfig | src/codex-config.ts:100-112 | the two removals, the feature step and the joining compute the merged text |
| CodexConfig.MergedText | src/codex-config.ts:107-111 | a merged text is the body's lines, an empty line and the projection's lines |
| CodexConfig.MergedParts | src/codex-config.ts:107-111 | for every projection, a merged text is the body, never empty, then an empty line and the projection if that is not blank, and a line feed |
| CodexConfig.MergedOnce | src/codex-config.ts:100-112 | in a merged text exactly one line trims to each gateway header, after a body with hooks enabled |
| CodexOpenings.OutsideIs | src/codex-config.ts:32-35 | both gateway removals leave the lines of the given text at which no gateway removal is open |
| CodexOpenings.GatewayRemovalExact | src/codex-config.ts:13-35 | for any reading of the given text, both removals leave exactly the lines outside the gateway tables if and only if no line is misread |
| CodexOpenings.MergedOpens | src/codex-config.ts:100-112 | comments behind headers ignored, a merged text opens a gateway table exactly once if and only if every line of the given text that opens it has a removal open before or at it |
| CodexOpenings.CommentedGatewayTwice | src/codex-config.ts:18-21 | a gateway table with a commented header is opened twice after the merge |
| CodexConfig.MergeIdempotent | src/codex-config.ts:100-112 | merging twice is merging once, for every existing text and every rendered projection |
| CodexConfig.MergeKeepsOthers | src/codex-config.ts:52-112 | all lines the removals leave but the hooks keys of the first features section, as the source delimits it, are kept in order, up to trailing white space |
| CodexTables.MergeTableExact | src/codex-config.ts:100-112 | of the lines the removals leave, nothing but the features table is changed exactly when `SetsTable` holds of them |
| RepoMap.SelectWithinBudget | src/context/repo-map.ts:364-388 | for any estimate the selected prefix fits unless empty and its extension does not; for a monotone one it is the longest that fits |
| RepoMap.SeedsFirst | src/context/repo-map.ts:320-340 | with ranks below the bonus, a selected unseeded symbol implies that every seeded one is selected |
| RepoMap.SeedPlacement | src/context/repo-map.ts:320-340 | for any ranks, a seed precedes another symbol when the other's rank stays below its own plus one and follows it when above; at equality path, then name, then line decide |
| RepoMap.RankPlacement | src/context/repo-map.ts:333-340 | of two symbols with the same claim to a seed the higher rank comes first, and at equal ranks path, then name, then line decide |
| RepoMap.ComparesExactly | src/context/repo-map.ts:333-340 | one symbol may stand before another exactly if its score is higher, or equal and path, name and line allow it |

## Left out

- Nested children keep the declared node: the planner's own `index` (position among siblings) and the always empty `dependents` of a nested child are not modelled, nor are the fields of a node that no modelled code reads (artifacts, gates, models, retries, time limits).
- Issue texts, issue paths and the error code derived from them; an issue is a datatype value naming the same ids.
- DependencyGraph.CreateDependencyGraph: the graph library's enumeration order is taken to be insertion order; JavaScript lists integer-like ids first. No statement depends on more than membership, except the exact id list of a graph over unique ids.
- CycleFinder.CycleVisitState.RecordCycle: a recorded cycle is identified by its member set; the source joins sorted ids with a NUL character, which differs only for ids that contain one.
- ArgoGraph.CompileArgoExecutionGraph: the stack is taken to hold one frame per node of the plan, and the strict schema parse is reduced to its non-emptiness conditions.
- PlanMeaning.WorkflowOrderPreserved: scoping, which compilation does not check below the top level, is a sufficient condition; the exact one is in PlanMeaning.WorkflowOrderExact.
- PlanMeaning.WorkflowOrderExact: assumes that some execution can meet the declared constraints and that no parallel is empty; otherwise there is no order to keep, and ArgoGraph.CompileOutcome and ArgoGraph.CompiledMeans say what lowering yields.
- Batches.DependencyBatches: the sort is an insertion sort with the comparator as a parameter; the order inside a batch is claimed for consistent comparators only.
- The graph, the frames and the queues are sequences and maps held in fields or locals; aliasing between the structures of the source is not modelled.
- Post, poll, merge, submit and persistence effects are nondeterministic outcomes. A failed post may nevertheless have reached the server, so exactly-once delivery is not claimed.
- EventSink.MappedIsNumbered: event types that map to exactly one record are collapsed into one case; time stamps, run ids and record contents other than plan and edges are omitted.
- RuntimeReporter.AttemptsInEventOrder: the intents of one event are attempted as a unit; the file appends beside them and where in the unit a failure happened are not modelled. Which events make persistence die of a defect is up to the store and is not modelled.
- LoopController.RunTrace: selection and graph building are parameters of which only membership in their input is assumed (`LoopSelection` adds the readiness rule, not the order of ready tickets or the scope of a root ticket); termination of the drain assumes a finite set of ticket ids; sleep times, pull request details and run ids are omitted.
- GeneratedIds.UniqueGeneratedId: trimming and lower-casing of the input are a parameter.
- ScheduleChecks.UnsafeParallelWorktreeIssues: profile roles and merge builtins are predicates, and one workflow is checked at a time.
- TicketPlan.TicketPlanSchedule: the choice of profile, the empty ticket plan and the surrounding artifact are omitted.
- CodexConfig.MergeIdempotent: the two rendered values are any one-line quoted strings; the general key and value of the feature step are fixed to the ones it is called with.
- CodexTables.FeatureTableExact: keys and headers are read line by line; values over several lines, quoted or spaced header names and dotted keys are not parsed. CodexSections.RemovalExact holds for any reading of lines, those included.
- RepoMap.SelectWithinBudget: ranks are reals and locale comparison is a parameter; page ranking, file discovery and parsing are not part of this model.
- The retry loop of `src/loop/argo-poll.ts`, the folds of `src/loop/merge.ts` and `src/loop/gh-checks.ts`, run and model resolution, the remaining schedule passes, command line, installers, rendering and configuration schemas.
