# Verified models of a scheduler, a span buffer, a circuit breaker, a prompt compiler and a cache

This project models five components of the repository in Dafny and proves what they promise, for
every input and every run.

* **Dependency scheduler** (`src/compiler/parallelExecutionOptimizer.service.ts`).
  `DependencyGraphs` holds the theory of dependency chains, levels and cycles on plain values;
  `DependencyNodes` and `DependencyVisits` the node objects and the two depth-first visits;
  `ChainLatencies`, `CriticalPathSearch` and `CriticalPathFacts` the critical path;
  `DependencyBuild` the graph builder; `ExecutionPlan` groups, schedule, IR groups and validation,
  and `ExecutionPlanFacts` what the plan of a body promises.
* **Self-healing span buffer** (`src/observability/selfHealingSpanProcessor.ts`).
  `SpanBuffer` is the step machine with its history, `SpanGuarantees` what every run keeps,
  `SpanArrivals` which spans are kept and which are exported next,
  `SpanFailures` what failed exports do to order and size, `SelfHealingSpanProcessors` the class
  whose methods take these steps in place.
* **Circuit breaker** (`src/shared/circuit-breaker.store.ts`, `src/shared/BaseService.ts`).
  `CircuitBreaker` is the timed state machine of one key and its trace properties,
  `GuardedCalls` reads sequences of calls as such runs and says which of them are rejected,
  `OverlappingCalls` what calls that overlap can tell apart, `CircuitBreakerStore` the store of
  mutable entries and the guarded service call.
* **Prompt compiler passes** (`src/compiler/promptCompiler.service.ts`, from the syntax tree on).
  `PromptAst` gives expressions a meaning, `PromptPasses` and `PromptPruning` are the passes,
  `PromptTruncationFacts` says when truncation cuts, miscounts and drops, and `PromptCompiler` is the
  pipeline and the text that it preserves.
* **Multi-strategy cache** (`src/services/redis.service.ts`).  `Similarity`, `CacheKeys` and
  `CacheRuns` state what keys, similarities and sequential runs guarantee; `RedisServices` is the
  service over its in-memory client.

Objects that the program updates in place are classes here, and their methods are proved against
functions on values; the lemmas are about those functions.  Clocks, the exporter's replies, the
outcomes of guarded operations, digests, embeddings, square roots and token estimates are
parameters.  Exceptions are `Result` values.

## What the proofs found

* `findCriticalPath` relaxes dependents before their dependencies, so distances never accumulate:
  the result is the walk along *first-listed* dependencies from the first slowest node that has any.
  It is the documented longest path if and only if that node, which the body determines
  (`WalkEndIsUnique`), ends a heaviest chain and each node of the walk lists a heaviest dependency
  first (`PathOfBodyIsCriticalIff`); it is not for any three statements of which the third lists the
  slower of the others second (`SlowSecondIsMissed`).  Relaxing dependencies first would not
  repair it: distances leave out the latency of the node a chain starts at
  (`DependenciesFirstFindsHeaviestTails`, `DependenciesFirstCanMissTheCriticalOne`).
* As built, `dependents` is a permutation of the node's *own dependencies*, so validation reports
  exactly the nodes for which nothing is listed as orphaned.  With unique ids the report is right if and
  only if there are no dependencies at all (`ValidateDependencyGraph`; an input on which it is wrong is in
  `OrphanReportCanBeWrong`).
* On an empty body the walk for the path never comes to an end (`WalkEndsIffNotEmpty`), so
  `BuildDependencyGraph` asks for a non-empty one.  An unknown dependency is an error of its own
  kind, next to the circular one.
* The plan's "sequential" latency is the latency of the returned path and not of all nodes, hence the
  reported speedup factor is at most 1 (`GenerateParallelExecutionPlan`).
* A failing call in the half-open state closes the circuit with one counted failure, unless one failure is
  the maximum; it does not reopen it (`HalfOpenFailureStartsOver`, `HalfOpenIsReachable`).  A success
  recorded while the circuit is open sets the count to zero and leaves it open (`SuccessKeepsOpen`).
  Deletion by window is invisible to all calls that begin after it if and only if the window is at least
  the reset timeout (`SweepIsInvisibleWhenIdleIff`); a call that is under way at the deletion can notice
  it whatever the window (`SweepCanBeNoticed`), unless a single failure opens the circuit
  (`SweepIsInvisibleToOverlapIff`).
* A failed batch returns to the buffer reversed (`FailureReversesBatch`), which breaks the order in which spans
  ended if and only if at least two of them are tried again (`FailureKeepsOrderIff`), and without an overflow check:
  a step takes the buffer beyond its limit if and only if a batch fails whose retryable spans find no
  room (`ExceedsLimitIff`, over runs `LimitHoldsIff`), and a whole batch beyond it is reachable
  (`BoundIsAttained`).
* Merged contexts lose the blank line between them, which shortens the prompt by two characters for
  every merged pair of non-empty texts; levels 1 and 2 give the same prompt if and only if there is
  no such pair (`LevelsAgreeIff`).  They also keep the token count of the first only (`MergingDropsTokens`).
* Truncation cuts if and only if some text of more than 80 tokens does not fit behind what remains of the
  statements before it (`TruncatesIff`).  Exactly then the token total it reports is too low
  (`ReportedTotalIsRightIff`, on the whole pass `AggressiveTotalIsTooLowIff`), so the pass can stay silent above
  its target (`AggressivePassCanBeSilent`).  Exactly then, too, all contexts and instructions
  without literal text disappear (`TruncationDropsIff`), among them numbers that would be shown (`NumberIsDropped`).
* Code generation emits the texts of a body if and only if every content that it does not show is empty
  (`GeneratedTextIff`): expressions other than literals are lost.
* However often an entry is hit, at most one hit is on record, and every rewrite of metadata brings expiry
  up to a second closer (`RewriteKeepsValue`, `ExactRun`).
* An identity shares its cache keys with another one if and only if its provider has a colon after the
  first character, its model is longer than one character and has a colon, or its user has a colon before the
  last character (`SharesKeysIff`).  Deduplication hits ignore user, model and provider (`DedupHitIsLatest`).

## Model

| member | source | states |
|---|---|---|
| DependencyVisits.LevelPass.Visit | src/compiler/parallelExecutionOptimizer.service.ts:130-159 | the recursive visit terminates; on success the node and all it depends on have final levels, in the order of a depth-first visit, earlier levels and the stack are untouched; an error is one the graph justifies |
| DependencyVisits.LevelPass.VisitDependencies | src/compiler/parallelExecutionOptimizer.service.ts:143-149 | the loop over the dependencies visits them in turn and finds the least level above all of theirs |
| DependencyVisits.LevelPass.Settle | src/compiler/parallelExecutionOptimizer.service.ts:149-156 | finishing a node gives it one more than its highest dependency's level and files it once under that level |
| DependencyVisits.LevelPass.VisitAll | src/compiler/parallelExecutionOptimizer.service.ts:161-165 | the loop over all nodes reaches every node, in the order of the visits, or stops with an error that the graph justifies |
| DependencyVisits.ComputeLevels | src/compiler/parallelExecutionOptimizer.service.ts:123-168 | succeeds exactly on closed acyclic graphs, and fails only with a cycle or an unknown dependency that exists; every node is filed exactly once, under its level, and every level lists its nodes in the order of the visits |
| DependencyGraphs.VisitOrderIsPostorder | src/compiler/parallelExecutionOptimizer.service.ts:130-165 | the order of the visits has every node once, after all it depends on |
| DependencyGraphs.EdgelessOrder | src/compiler/parallelExecutionOptimizer.service.ts:161-165 | without dependencies it is the order in which the nodes were inserted |
| DependencyGraphs.LevelIsLongestChain | src/compiler/parallelExecutionOptimizer.service.ts:143-149 | a node's level is the number of steps of the longest dependency chain that ends at it |
| DependencyGraphs.LevelsAreContiguous | src/compiler/parallelExecutionOptimizer.service.ts:123-168 | below every used level all levels down to 0 are used |
| DependencyGraphs.LevelIsEarliestWave | src/compiler/parallelExecutionOptimizer.service.ts:123-168 | no assignment to waves that respects the dependencies runs a node earlier than its level |
| DependencyGraphs.LevelsAreAWavePlan | src/compiler/parallelExecutionOptimizer.service.ts:123-168 | the levels themselves are such an assignment |
| DependencyGraphs.CompleteMeansAcyclic | src/compiler/parallelExecutionOptimizer.service.ts:123-168 | a graph whose nodes all have levels is closed and has no dependency cycle |
| DependencyGraphs.BackEdgeIsCycle | src/compiler/parallelExecutionOptimizer.service.ts:136-138 | meeting a node that is still being visited exhibits a dependency cycle |
| DependencyVisits.CyclePass.Dfs | src/compiler/parallelExecutionOptimizer.service.ts:453-468 | the second search terminates; it throws only on what the graph justifies, and otherwise never returns true and leaves its stack as it was |
| DependencyVisits.DetectCycles | src/compiler/parallelExecutionOptimizer.service.ts:449-475 | throws on exactly the graphs for which no levels can be computed |
| DependencyGraphs.PostorderMeansAcyclic | src/compiler/parallelExecutionOptimizer.service.ts:453-475 | an order of all nodes with dependencies first exists only for closed acyclic graphs |
| CriticalPathSearch.SortPass.Dfs | src/compiler/parallelExecutionOptimizer.service.ts:189-198 | the sorting search terminates and extends an order in which dependencies precede their dependents |
| CriticalPathSearch.SortNodes | src/compiler/parallelExecutionOptimizer.service.ts:185-202 | every node once, dependencies first; without any dependencies the order of insertion |
| CriticalPathSearch.RelaxOne | src/compiler/parallelExecutionOptimizer.service.ts:210-217 | a node relaxed against each of its dependencies in turn |
| CriticalPathSearch.RelaxInOrder | src/compiler/parallelExecutionOptimizer.service.ts:176-218 | the loops compute the relaxation of the nodes in the given order from all-zero distances |
| CriticalPathSearch.ChooseEnd | src/compiler/parallelExecutionOptimizer.service.ts:221-229 | the scan finds the first of the farthest nodes, or the fallback when no distance is positive |
| CriticalPathSearch.FarthestIsWalkEnd | src/compiler/parallelExecutionOptimizer.service.ts:207-229 | over the distances that the reversed order leaves, that is the first of the slowest nodes that have dependencies |
| CriticalPathSearch.WalkEndIsUnique | src/compiler/parallelExecutionOptimizer.service.ts:221-229 | graph, latencies and order of insertion determine where the walk ends |
| CriticalPathSearch.WalkBack | src/compiler/parallelExecutionOptimizer.service.ts:232-240 | the walk over parents terminates in a dependency-free node and is the walk along first dependencies |
| CriticalPathSearch.FindCriticalPath | src/compiler/parallelExecutionOptimizer.service.ts:173-241 | on a non-empty graph with levels the result is the first-dependency walk to the slowest node that has dependencies |
| ChainLatencies.FirstWalk | src/compiler/parallelExecutionOptimizer.service.ts:232-240 | that walk is a repeat-free dependency chain from a dependency-free node |
| ChainLatencies.DependentsFirstKeepsOwnLatency | src/compiler/parallelExecutionOptimizer.service.ts:204-218 | relaxed in reverse order, every node with dependencies gets its own latency and its first dependency as parent, every other node nothing |
| ChainLatencies.RelaxedValues | src/compiler/parallelExecutionOptimizer.service.ts:204-218 | the same for the completed loop over all nodes |
| ChainLatencies.DependenciesFirstFindsHeaviestTails | src/compiler/parallelExecutionOptimizer.service.ts:207-218 | relaxed dependencies first, distances would be the heaviest chain latencies without the latency of the chain's first node |
| ChainLatencies.HeaviestToIsUpperBound | src/compiler/parallelExecutionOptimizer.service.ts:170-172 | no chain that ends at a node takes longer than the recursively computed heaviest one |
| ChainLatencies.HeaviestChainTo | src/compiler/parallelExecutionOptimizer.service.ts:170-172 | and some chain takes that long |
| ChainLatencies.FirstWalkIsCriticalIff | src/compiler/parallelExecutionOptimizer.service.ts:170-241 | a first-dependency walk is a heaviest chain if and only if its end ends one and every step goes to a heaviest dependency |
| CriticalPathFacts.ReturnedPathIsCriticalIff | src/compiler/parallelExecutionOptimizer.service.ts:170-254 | for the end that the input determines: the returned path is a repeat-free chain, never heavier than the longest one, and as heavy exactly if that end ends a heaviest chain and every node of the walk lists a heaviest dependency first |
| CriticalPathFacts.PathOfBodyIsCriticalIff | src/compiler/parallelExecutionOptimizer.service.ts:53-118 | the same condition, read off the body, for every graph that was built |
| CriticalPathFacts.WalkEndsIffNotEmpty | src/compiler/parallelExecutionOptimizer.service.ts:222-238 | without positive distances the walk over parents ends if and only if there is a node |
| CriticalPathFacts.SlowSecondIsMissed | src/compiler/parallelExecutionOptimizer.service.ts:204-240 | for any three statements of which the last lists a fast one before a slow one, the slow one is missed |
| CriticalPathFacts.ReturnedPathCanMissTheCriticalOne | src/compiler/parallelExecutionOptimizer.service.ts:204-240 | a body of three statements on which the returned path takes 2 milliseconds and another chain 101 |
| CriticalPathFacts.DependenciesFirstCanMissTheCriticalOne | src/compiler/parallelExecutionOptimizer.service.ts:207-229 | a graph on which relaxing dependencies first makes a node farthest at which no heaviest chain ends |
| DependencyNodes.Statement.Latency | src/compiler/parallelExecutionOptimizer.service.ts:69-71 | a hundredth of a millisecond for every token, 100 milliseconds when there is no count or it is zero, and so always positive |
| DependencyBuild.DeclaredFromBody | src/compiler/parallelExecutionOptimizer.service.ts:58-72 | one node for each id of the body, filed under that id and made from a statement of the body |
| DependencyBuild.LastStatementCounts | src/compiler/parallelExecutionOptimizer.service.ts:58-72 | of several statements with one id the last makes the node |
| DependencyBuild.FirstOccurrenceOrders | src/compiler/parallelExecutionOptimizer.service.ts:58-72 | the place of the node among the others is that of the first of them |
| DependencyBuild.AddEdge | src/compiler/parallelExecutionOptimizer.service.ts:76-79 | one edge more for one listed dependency, and no other change |
| DependencyBuild.AddEdges | src/compiler/parallelExecutionOptimizer.service.ts:75-80 | each listed dependency gains one edge to the statement for each time it is listed, no other edge changes |
| DependencyBuild.CreateNodes | src/compiler/parallelExecutionOptimizer.service.ts:54-81 | one node for each id, from its last statement; the edges are the transposed dependency lists with their multiplicities |
| DependencyBuild.PushDependents | src/compiler/parallelExecutionOptimizer.service.ts:85-90 | every node on the list gains the id once for each time it is listed |
| DependencyBuild.ComputeDependents | src/compiler/parallelExecutionOptimizer.service.ts:83-91 | a node's dependents are the ids with an edge to it, which is what it depends on |
| ExecutionPlan.DependentsAreOwnDependencies | src/compiler/parallelExecutionOptimizer.service.ts:83-91 | with unique ids, dependents are a permutation of the node's own dependencies |
| DependencyBuild.ListedOnce | src/compiler/parallelExecutionOptimizer.service.ts:57-81 | with unique ids, what is recorded for an id is the dependency list of its one statement |
| DependencyBuild.ComputeTotalLatency | src/compiler/parallelExecutionOptimizer.service.ts:246-254 | the latencies of the listed nodes added up |
| DependencyBuild.BuildDependencyGraph | src/compiler/parallelExecutionOptimizer.service.ts:53-118 | a non-empty body yields a graph exactly when its dependencies are closed and acyclic, with levels, path and latency as above, and otherwise an error that the body justifies |
| ExecutionPlan.SortLevels | src/compiler/parallelExecutionOptimizer.service.ts:268-270 | the level numbers, each once, in increasing order |
| ExecutionPlan.MaxLatency | src/compiler/parallelExecutionOptimizer.service.ts:271-274 | the latency of a slowest node of the level |
| ExecutionPlan.GenerateGroups | src/compiler/parallelExecutionOptimizer.service.ts:263-287 | group number i is level i, every level has its group, and only the maximum parallelism depends on the cap |
| ExecutionPlan.GenerateParallelExecutionPlan | src/compiler/parallelExecutionOptimizer.service.ts:259-310 | the plan of every graph that was built; its speedup factor is positive and at most 1 |
| ExecutionPlan.PlanPartitionsNodes | src/compiler/parallelExecutionOptimizer.service.ts:266-287 | the groups hold every node exactly once |
| ExecutionPlan.PlanHasFewestWaves | src/compiler/parallelExecutionOptimizer.service.ts:266-287 | the groups respect the dependencies and no split into waves that does so has fewer waves |
| ExecutionPlan.ChainFitsPlan | src/compiler/parallelExecutionOptimizer.service.ts:271-287 | by the end of the group of its last node the schedule has had time for a whole dependency chain |
| ExecutionPlan.PathFitsPlan | src/compiler/parallelExecutionOptimizer.service.ts:263-289 | no dependency chain takes longer than the estimated parallel latency |
| ExecutionPlan.PlanAtMostSequential | src/compiler/parallelExecutionOptimizer.service.ts:264-287 | the estimated parallel latency is at most the sum of all node latencies |
| ExecutionPlan.GenerateExecutionSchedule | src/compiler/parallelExecutionOptimizer.service.ts:480-515 | every group starts when the one before it ends, and the total time is the plan's estimated parallel latency |
| ExecutionPlan.ScheduleAt | src/compiler/parallelExecutionOptimizer.service.ts:495-509 | the start and end events of group i and their times |
| ExecutionPlan.ScheduleRespectsDependencies | src/compiler/parallelExecutionOptimizer.service.ts:480-515 | a node's group starts no earlier than the end of the group of anything it depends on, directly or not |
| ExecutionPlan.OptimizeIRForParallel | src/compiler/parallelExecutionOptimizer.service.ts:333-356 | the IR groups are the plan's groups of more than one node, in order, with an infinite speedup for a width of zero |
| ExecutionPlan.IRGroupsAreIndependent | src/compiler/parallelExecutionOptimizer.service.ts:337-347 | no two members of an IR parallel group are joined by a dependency chain |
| ExecutionPlan.IRGroupsAreComplete | src/compiler/parallelExecutionOptimizer.service.ts:337-347 | every level of more than one node has its IR group, with its nodes and speedup, and no other level has one |
| ExecutionPlan.SpeedupIsAtLeastOne | src/compiler/parallelExecutionOptimizer.service.ts:340-346 | the speedup of an IR group is at least 1: the number of its nodes for each one that may run at a time |
| ExecutionPlan.ValidateDependencyGraph | src/compiler/parallelExecutionOptimizer.service.ts:410-444 | valid exactly for closed acyclic graphs, hence for every graph that was built; on those exactly the nodes for which nothing is listed are reported as orphaned, which with unique ids is right if and only if there are no dependencies |
| ExecutionPlan.FindOrphans | src/compiler/parallelExecutionOptimizer.service.ts:425-430 | the reported nodes are those with neither dependencies nor recorded dependents |
| ExecutionPlan.OrphansListNothing | src/compiler/parallelExecutionOptimizer.service.ts:83-91 | for a graph that was built these are the nodes whose statements list nothing |
| ExecutionPlan.OrphansIffEdgeless | src/compiler/parallelExecutionOptimizer.service.ts:425-430 | dependency-free nodes are all without dependents only in a graph without dependencies |
| ExecutionPlanFacts.OrphanReportCanBeWrong | src/compiler/parallelExecutionOptimizer.service.ts:425-430 | a body of two statements of which the first is reported although the second depends on it |
| ExecutionPlanFacts.PlanOfBody | src/compiler/parallelExecutionOptimizer.service.ts:259-310 | the plan of every body for which a graph was built: its groups partition the nodes into the fewest waves, its schedule keeps every chain in order and fits it, its total is at most the sum of latencies, and its IR groups are independent |
| SelfHealingSpanProcessors.SelfHealingSpanProcessor.OnEnd | src/observability/selfHealingSpanProcessor.ts:112-192 | ending a span takes the step of that name: buffer it, then start an export unless one runs |
| SelfHealingSpanProcessors.SelfHealingSpanProcessor.AddToBuffer | src/observability/selfHealingSpanProcessor.ts:300-372 | the span goes to the end with no retries counted, and the oldest is dropped if the buffer is then too long |
| SelfHealingSpanProcessors.SelfHealingSpanProcessor.Push | src/observability/selfHealingSpanProcessor.ts:318-350 | what the buffer holds afterwards, with and without overflow, and that no object occurs twice |
| SelfHealingSpanProcessors.SelfHealingSpanProcessor.ExportSpans | src/observability/selfHealingSpanProcessor.ts:377-447 | unless an export runs or the buffer is empty, the first 100 spans leave the buffer and are handed to the exporter |
| SelfHealingSpanProcessors.SelfHealingSpanProcessor.RequestExport | src/observability/selfHealingSpanProcessor.ts:866-869 | what the timer does, and the forced flush and the shutdown up to their wait: the step of a request |
| SelfHealingSpanProcessors.SelfHealingSpanProcessor.OnExporterReply | src/observability/selfHealingSpanProcessor.ts:442-515 | the reply takes the step of that name, for success and failure |
| SelfHealingSpanProcessors.SelfHealingSpanProcessor.TakeBack | src/observability/selfHealingSpanProcessor.ts:442-515 | on success the buffer stays, on failure it is that of the failed step |
| SelfHealingSpanProcessors.SelfHealingSpanProcessor.Requeue | src/observability/selfHealingSpanProcessor.ts:489-515 | the buffer becomes the retryable spans of the batch reversed, each with one more retry counted, before what it held |
| SelfHealingSpanProcessors.SelfHealingSpanProcessor.RequeueOne | src/observability/selfHealingSpanProcessor.ts:490-514 | one span of the batch goes to the front with one more retry counted, or is dropped |
| SelfHealingSpanProcessors.SelfHealingSpanProcessor.OnPersisted | src/observability/selfHealingSpanProcessor.ts:528-562 | the call ends and the next export may start |
| SpanArrivals.NewestIsKept | src/observability/selfHealingSpanProcessor.ts:318-350 | from every reachable state, the span that ends is the last one buffered or the last of the batch just handed over, and an export is under way; one span is given up exactly if 1000 were buffered, the oldest of them |
| SpanArrivals.BufferIsSuffix | src/observability/selfHealingSpanProcessor.ts:318-422 | in every run without failed exports the buffer holds exactly the spans that ended last, in their order |
| SpanArrivals.RequestTakesOldest | src/observability/selfHealingSpanProcessor.ts:378-422 | a request in any reachable state in which no export runs hands over the first 100 buffered spans, or all of fewer, and leaves the others as they were |
| SpanGuarantees.ReachableInv | src/observability/selfHealingSpanProcessor.ts:300-563 | every reachable state satisfies the invariant: one export at most, bounded buffer, counted retries, conserved spans and attempts |
| SpanGuarantees.NoSpanIsLostOrDuplicated | src/observability/selfHealingSpanProcessor.ts:300-563 | in every reachable state the ended spans are, as a multiset, those buffered, in flight, exported, dropped for overflow and dropped after retries |
| SpanGuarantees.MemoryIsBounded | src/observability/selfHealingSpanProcessor.ts:349-350 | in every interleaving buffered and in-flight spans together are at most 1100, of which at most 100 are in flight |
| SpanGuarantees.AttemptsAreLimited | src/observability/selfHealingSpanProcessor.ts:489-515 | a span is handed over at most four times for each time it ended |
| SpanGuarantees.AbandonedTookAllAttempts | src/observability/selfHealingSpanProcessor.ts:489-515 | each time a span was dropped after retries accounts for exactly four of the times it was handed over, the rest belongs to entries elsewhere |
| SpanGuarantees.AbandonedOnce | src/observability/selfHealingSpanProcessor.ts:489-515 | a span that ended once and was dropped after retries was handed over exactly four times and is nowhere else |
| SpanGuarantees.AttemptsLeftFall | src/observability/selfHealingSpanProcessor.ts:422-515 | without new spans no step adds attempts and every completed export uses up one for each of its spans |
| SpanGuarantees.CompletionsAreLimited | src/observability/selfHealingSpanProcessor.ts:422-515 | without new spans no run completes more exports than there are attempts left |
| SpanGuarantees.BufferDrains | src/observability/selfHealingSpanProcessor.ts:377-563 | from any reachable situation and in any interleaving, a run without new spans that completes as many exports as there are attempts left leaves nothing buffered or in flight |
| SpanGuarantees.ExportsCanComplete | src/observability/selfHealingSpanProcessor.ts:377-563 | while anything is left, the end of the call under way and one request lead to a batch awaiting its reply |
| SpanGuarantees.OrderIsKeptWithoutFailures | src/observability/selfHealingSpanProcessor.ts:318-422 | in runs without failed export, exported, in-flight and buffered spans form a subsequence of the ended order |
| SpanFailures.FailureReversesBatch | src/observability/selfHealingSpanProcessor.ts:489-492 | after any failure in any run, retryable entry i of n stands at position n-1-i with one more retry, followed by what was buffered since, unchanged |
| SpanFailures.FailureKeepsOrderIff | src/observability/selfHealingSpanProcessor.ts:489-492 | when no span ends twice, a failure keeps the order of ending if and only if at most one span of the batch gets another try |
| SpanFailures.ExceedsLimitIff | src/observability/selfHealingSpanProcessor.ts:349-492 | from at most 1000 buffered spans a step leads to more if and only if a batch fails whose retryable spans find no room |
| SpanFailures.LimitHoldsIff | src/observability/selfHealingSpanProcessor.ts:349-492 | the limit holds throughout a run if and only if no such failure occurs in it |
| SpanFailures.LimitHoldsWithoutFailures | src/observability/selfHealingSpanProcessor.ts:349-350 | it holds in every run without failed exports |
| SpanFailures.BoundIsAttained | src/observability/selfHealingSpanProcessor.ts:489-492 | a buffer of 1100 spans is reachable |
| CircuitBreakerStore.CircuitBreakerEntry.CountFailure | src/shared/circuit-breaker.store.ts:52-75 | one failure on an entry in place, in all three states |
| CircuitBreakerStore.Store.RecordFailure | src/shared/circuit-breaker.store.ts:28-76 | the component's entry, or a new closed one, counts the failure; no other component changes |
| CircuitBreakerStore.Store.CountFailureOf | src/shared/circuit-breaker.store.ts:52-75 | the failure is counted on the entry that the store holds, and on no other |
| CircuitBreakerStore.Store.RecordSuccess | src/shared/circuit-breaker.store.ts:78-86 | a half-open entry closes, any entry loses its count, an open one stays open; no other component changes |
| CircuitBreakerStore.Store.TransitionToHalfOpen | src/shared/circuit-breaker.store.ts:88-100 | only an open entry whose reset timeout is over becomes half-open, with count 0 |
| CircuitBreakerStore.Store.IsOpen | src/shared/circuit-breaker.store.ts:105-121 | true exactly for an open entry within its reset timeout; otherwise an open entry becomes half-open |
| CircuitBreakerStore.Store.IsOpenByWindow | src/shared/circuit-breaker.store.ts:127-141 | an entry whose last failure is older than the window is deleted, else the answer is by count or state |
| CircuitBreakerStore.BaseService.Enter | src/shared/BaseService.ts:56-64 | the part before the wait: the call is let through unless its key is open within its timeout |
| CircuitBreakerStore.BaseService.Leave | src/shared/BaseService.ts:66-92 | the part after the wait, from whatever the store then holds: the outcome takes its step on the key and no other |
| CircuitBreakerStore.BaseService.ExecuteWithCircuitBreaker | src/shared/BaseService.ts:52-92 | both parts of a call that overlaps no other: rejected exactly while the key's entry is open within its timeout; otherwise the outcome is the operation's, and the entry has taken the step of the check and then that of the success or failure |
| GuardedCalls.CallsAreARun | src/shared/BaseService.ts:52-92 | every sequence of calls leaves the entry of the run of its events: a check for each call, and for each that is let through its success or failure |
| GuardedCalls.RejectedIff | src/shared/BaseService.ts:56-64 | in every sequence of calls, a call is rejected if and only if the outcomes of those let through before it end in a burst of the maximum number of failures, the last of them within the reset timeout |
| CircuitBreakerStore.FiveFailuresReject | src/shared/BaseService.ts:20-21 | with the defaults of a service, if and only if the last five of those outcomes are failures, each at most a minute after the one before, and the last at most a minute ago |
| GuardedCalls.SuccessLeavesNoFailure | src/shared/BaseService.ts:66-68 | a success that was let through leaves count 0 and the circuit not open |
| GuardedCalls.OpenByWindowIff | src/shared/circuit-breaker.store.ts:127-141 | after every sequence of calls and for every window, the check by window answers that the circuit is open if and only if such a burst ends within the window |
| CircuitBreaker.StreakIsLongestBurst | src/shared/circuit-breaker.store.ts:61-70 | the streak is the length of the longest suffix of outcomes that are all failures with gaps at most the reset timeout |
| CircuitBreaker.RunIsExplained | src/shared/circuit-breaker.store.ts:28-121 | after every run with a non-decreasing clock the entry is determined by its outcomes: last failure time, and the streak as count while closed |
| CircuitBreaker.CountIsStreak | src/shared/circuit-breaker.store.ts:28-121 | while closed the count is the streak and below the maximum; half-open has count 0 and is left by the next outcome |
| CircuitBreaker.OpensExactlyAtMaximum | src/shared/circuit-breaker.store.ts:70-75 | a circuit that is not open is opened by a failure exactly when the streak reaches the maximum |
| CircuitBreaker.HalfOpenFailureStartsOver | src/shared/circuit-breaker.store.ts:52-75 | in every run, a failure in the half-open state leaves count 1, and an open circuit if and only if one failure is the maximum |
| CircuitBreaker.HalfOpenIsReachable | src/shared/circuit-breaker.store.ts:52-98 | the maximum number of failures and a check after the reset timeout lead to the half-open state |
| CircuitBreaker.SuccessKeepsOpen | src/shared/circuit-breaker.store.ts:78-86 | in every run, a success clears the count, keeps an open circuit open, and closes it otherwise |
| CircuitBreaker.RunIsWellFormed | src/shared/circuit-breaker.store.ts:28-121 | the entries of all such runs meet the assumption of the next two lemmas |
| CircuitBreaker.LooksAbsentIffBlank | src/shared/circuit-breaker.store.ts:105-121 | to every later sequence of guarded calls of which none overlap, an entry looks like no entry if and only if it is closed with count 0 or its last failure is older than the reset timeout |
| CircuitBreaker.SweepIsInvisibleIff | src/shared/circuit-breaker.store.ts:135-139 | deletion by window never changes which later calls, of which none overlap, are admitted if and only if the window is at least the reset timeout |
| CircuitBreaker.SweepsChangeNothing | src/shared/circuit-breaker.store.ts:127-141 | however many such deletions happen between guarded calls of which none overlap, the same calls are admitted |
| OverlappingCalls.InterchangeableIff | src/shared/circuit-breaker.store.ts:28-121 | to every later interleaving of checks and outcomes, of calls under way too, an entry looks like no entry if and only if it is blank and, unless one failure is the maximum, not open |
| OverlappingCalls.InterchangeableWhenIdleIff | src/shared/circuit-breaker.store.ts:28-121 | to every interleaving of calls that all begin later, if and only if it is blank |
| OverlappingCalls.SweepIsInvisibleToOverlapIff | src/shared/circuit-breaker.store.ts:135-139 | deletion by window is invisible to every interleaving if and only if the window is at least the reset timeout and one failure is the maximum |
| OverlappingCalls.SweepIsInvisibleWhenIdleIff | src/shared/circuit-breaker.store.ts:135-139 | it is invisible to every interleaving of calls that begin later if and only if the window is at least the reset timeout |
| OverlappingCalls.SweepCanBeNoticed | src/shared/circuit-breaker.store.ts:127-141 | a run in which a call that was under way at the deletion fails, and the next call is admitted only because of the deletion |
| OverlappingCalls.IdleDeletionsChangeNothing | src/shared/circuit-breaker.store.ts:127-141 | in any run of overlapping calls, deletions while no call is under way leave the answers to all calls unchanged |
| PromptPasses.FoldPreservesText | src/compiler/promptCompiler.service.ts:1458-1490 | folding keeps the text of every expression in every environment |
| PromptPasses.FoldReduces | src/compiler/promptCompiler.service.ts:1465-1488 | folding leaves no '+' of two literals below nothing but '+' |
| PromptPasses.ReducedIsFixed | src/compiler/promptCompiler.service.ts:1458-1490 | folding changes exactly the expressions that contain such a '+' |
| PromptPasses.FoldIsIdempotent | src/compiler/promptCompiler.service.ts:1458-1490 | folding twice is folding once |
| PromptPasses.FoldsToLiteralIff | src/compiler/promptCompiler.service.ts:1465-1486 | folding yields a single literal exactly for sums of literals |
| PromptPasses.FoldConstants | src/compiler/promptCompiler.service.ts:1437-1550 | the pass folds every statement and merges neighbouring literal contexts two by two |
| PromptPasses.FoldingChangesExpressionOnly | src/compiler/promptCompiler.service.ts:1492-1504 | folding a statement keeps everything but the expression of an instruction, context or constraint, which keeps its text and is reduced |
| PromptPasses.MergeContexts | src/compiler/promptCompiler.service.ts:1506-1539 | the loop pairs contexts from the left, using up the second of each pair |
| PromptPasses.RunIsMergedByTwos | src/compiler/promptCompiler.service.ts:1506-1539 | of literal contexts that follow one another the first two become one, then the next two, and the last of an odd number stays; every other statement stays as it is |
| PromptPasses.MergedIsFirstWithBothTexts | src/compiler/promptCompiler.service.ts:1444-1456 | the merged context is the first one with both texts in order, compressible only if both are |
| PromptPasses.MergingKeepsLayout | src/compiler/promptCompiler.service.ts:1506-1539 | merging moves no context text across another statement and leaves the other statements as they are |
| PromptPasses.MergingDropsTokens | src/compiler/promptCompiler.service.ts:1526-1527 | the token counts of the second contexts of merged pairs are exactly what is lost |
| PromptPasses.EliminateDeadCode | src/compiler/promptCompiler.service.ts:1394-1432 | keeps the statements at a strictly increasing sequence of indices: all but those of contexts that are not required and of priority below 3; the tokens reported saved are those that disappear |
| PromptPasses.KeptIsSelection | src/compiler/promptCompiler.service.ts:1394-1418 | whatever is picked from the body at exactly these indices in increasing order is what is kept |
| PromptPasses.RetainedAtMostEstimated | src/compiler/promptCompiler.service.ts:1567-1596 | the estimate that decides on compression is never below the count of what is kept, so no warning is missed by returning early |
| PromptPasses.TokensAreCountedOrEstimated | src/compiler/promptCompiler.service.ts:1663-1670 | the tokens of a statement are those of its metadata, without these an estimate of its literal text, and zero for other statements |
| PromptPasses.CompressContext | src/compiler/promptCompiler.service.ts:1556-1693 | without a summarizer the body is unchanged, and the warning comes exactly when a non-zero target is exceeded |
| PromptPasses.GenerateIR | src/compiler/promptCompiler.service.ts:1878-1931 | one IR instruction for each instruction and context, in order, with its id, kind, token count, dependencies and literal value, and none for other statements |
| PromptPasses.GenerateCode | src/compiler/promptCompiler.service.ts:1936-1952 | the operands that count as true, in order, joined by blank lines |
| PromptPasses.PromptOfMore | src/compiler/promptCompiler.service.ts:1936-1952 | between two parts stand exactly two line breaks |
| PromptPruning.PruningOrderIsSorted | src/compiler/promptCompiler.service.ts:1714-1721 | the order is a stable sort of the contexts: equal ones as they stand in the body, and nothing is lost or added |
| PromptPruning.OrderIsByMetadata | src/compiler/promptCompiler.service.ts:1714-1721 | every context in the order has less importance than a later one, or the same and at most as many tokens, both 0 when they are missing |
| PromptPruning.PruneContexts | src/compiler/promptCompiler.service.ts:1711-1751 | removes exactly the shortest prefix of that order that reaches the target, or all; with unique ids every removed context is less important than every one that stays, or as important with at most as many tokens; total and savings agree with it |
| PromptPruning.SmallerContextGoes | src/compiler/promptCompiler.service.ts:1711-1738 | of two contexts of 5 and 50 tokens without importance, a total of 103 and a target of 100, the one of 5 goes, whichever comes first |
| PromptPruning.StopIsUnique | src/compiler/promptCompiler.service.ts:1726-1727 | where pruning stops is determined by order, total and target |
| PromptPruning.PruningRemovesOnlyContexts | src/compiler/promptCompiler.service.ts:1726-1738 | with unique ids only that prefix is removed, all of it contexts, and the survivors keep their order |
| PromptPruning.SavingsAddUp | src/compiler/promptCompiler.service.ts:1730-1737 | the reported savings sum to the fall of the running total |
| PromptPruning.TruncateTexts | src/compiler/promptCompiler.service.ts:1753-1850 | the loop computes the truncation of the body; if nothing was cut, body and total stay as they were |
| PromptPruning.TruncationKeepsOrder | src/compiler/promptCompiler.service.ts:1759-1837 | the loop's result holds in order every statement but contexts and instructions without literal text, each as it was or as a prefix of its text with the mark |
| PromptPruning.ReportedTotalLeavesOutTheCut | src/compiler/promptCompiler.service.ts:1780-1831 | the tokens of the result are the reported total plus the tokens of the truncated statements |
| PromptTruncationFacts.TruncatesIff | src/compiler/promptCompiler.service.ts:1772-1784 | something is cut if and only if a text of more than 80 tokens does not fit behind what remains of the statements before it |
| PromptTruncationFacts.CutLength | src/compiler/promptCompiler.service.ts:1780-1815 | every text that is cut keeps its first four characters for each token of a fair share of what was left, but at least 16, followed by the mark, and is counted by the estimate |
| PromptTruncationFacts.FirstCutLength | src/compiler/promptCompiler.service.ts:1780-1815 | for the first text that needs a cut, on the body alone: everything before it that has a text stays as it was, and what was left is the target without its tokens |
| PromptTruncationFacts.ReportedTotalIsRightIff | src/compiler/promptCompiler.service.ts:1757-1848 | the reported total is never above what remains, and equal to it if and only if nothing needs a cut |
| PromptTruncationFacts.AggressiveTotalIsTooLowIff | src/compiler/promptCompiler.service.ts:1698-1873 | on the whole pass the total is too low exactly if pruning is not enough and a statement of the pruned body needs a cut; otherwise it is that of the pruned body |
| PromptTruncationFacts.AggressivePassCanBeSilent | src/compiler/promptCompiler.service.ts:1780-1859 | for any single long instruction the pass reports zero tokens and gives no warning although more than the target remains |
| PromptTruncationFacts.TruncationDropsIff | src/compiler/promptCompiler.service.ts:1772-1840 | statements disappear if and only if one has no literal text and another needs a cut |
| PromptTruncationFacts.NumberIsDropped | src/compiler/promptCompiler.service.ts:1772-1840 | a number that code generation would show is dropped beside a long text |
| PromptPruning.AggressiveOptimization | src/compiler/promptCompiler.service.ts:1698-1873 | prune while over target, truncate if still over, warn exactly if still over after that |
| PromptCompiler.Compile | src/compiler/promptCompiler.service.ts:68-112 | which passes run at which level, that the prompt is the generated code of their result, and that without the aggressive pass its parts concatenate to the texts of the statements at the indices that are kept |
| PromptCompiler.GeneratedText | src/compiler/promptCompiler.service.ts:1878-1952 | for literal contents the emitted parts concatenate to the texts of instructions and contexts |
| PromptCompiler.GeneratedTextIff | src/compiler/promptCompiler.service.ts:1878-1952 | the emitted parts concatenate to the texts if and only if every content that is not shown is empty |
| PromptCompiler.MergingPreservesText | src/compiler/promptCompiler.service.ts:1506-1539 | merging preserves the concatenated text of the body |
| PromptCompiler.CompilationPreservesText | src/compiler/promptCompiler.service.ts:68-112 | at levels 1 to 3 without the aggressive pass the parts concatenate to exactly the texts, in order of their indices in the body, of all instructions and of the contexts that are required or of priority at least 3 |
| PromptCompiler.CompilationPreservesTextIff | src/compiler/promptCompiler.service.ts:68-112 | for all contents, they concatenate to the texts of what is kept if and only if code generation hides no text of the optimized body |
| PromptCompiler.PartsOfMerged | src/compiler/promptCompiler.service.ts:1506-1539 | merging gives up one part for every merged pair of non-empty texts and changes no other |
| PromptCompiler.MergingDropsSeparators | src/compiler/promptCompiler.service.ts:1506-1539 | the prompt is two characters shorter for every such pair, and unchanged if and only if there is none |
| PromptCompiler.LevelsAgreeIff | src/compiler/promptCompiler.service.ts:72-92 | for string literals, levels 1 and 2 give the same prompt if and only if no two non-empty contexts are merged |
| PromptCompiler.MergingDropsSeparator | src/compiler/promptCompiler.service.ts:1526-1527 | for two non-empty required contexts the prompt has two line breaks between the texts at level 1 and none at level 2 |
| Similarity.CosineSimilarity | src/services/redis.service.ts:600-619 | the loop computes the cosine of the two vectors, 0 for different lengths or a zero norm |
| Similarity.CosineIsNormalizedDot | src/services/redis.service.ts:600-619 | 0 for vectors of different lengths and for a zero vector, and otherwise the number which times both norms is the dot product |
| Similarity.CauchySchwarz | src/services/redis.service.ts:603-611 | the squared dot product is at most the product of the squared norms, for vectors of any length |
| Similarity.CosineIsBounded | src/services/redis.service.ts:600-619 | similarities lie between -1 and 1 |
| Similarity.CosineIsSymmetric | src/services/redis.service.ts:600-619 | the order of the vectors does not matter |
| Similarity.CosineOfItself | src/services/redis.service.ts:600-619 | 1 for a vector with itself, and 0 exactly for the zero vector |
| CacheKeys.SharesKeysIff | src/services/redis.service.ts:523-532 | an identity shares its keys with another one if and only if a colon in it can be read as a separator |
| CacheKeys.DefaultsInKeys | src/services/redis.service.ts:523-532 | a missing or empty component counts as unknown provider, unknown model or anonymous user |
| CacheKeys.ComponentsInKeys | src/services/redis.service.ts:523-532 | the key is made of the prefix, provider, model, user and digest, in this order, separated by colons |
| CacheKeys.OneReading | src/services/redis.service.ts:523-532 | without such a colon the joined provider, model and user can be read in one way only |
| CacheKeys.OtherReading | src/services/redis.service.ts:523-532 | with such a colon there is another reading |
| CacheKeys.KeysAgreeByText | src/services/redis.service.ts:505-533 | with colon-free digests, keys agree exactly for the same digest and the same joined components |
| CacheKeys.KeysAgreeIff | src/services/redis.service.ts:505-533 | keys of an identity without such a colon agree with any other, whatever colons that has, exactly for the same digest, provider, model and user |
| CacheKeys.ColonsConfuse | src/services/redis.service.ts:523-532 | two identities that differ in provider and model but share a key |
| CacheKeys.KeyKindsDiffer | src/services/redis.service.ts:523-532 | exact, deduplication and semantic keys never meet |
| RedisServices.RedisService.LookUp | src/services/redis.service.ts:92-97 | the map drops an entry that was not used for an hour, and a look-up is a use |
| RedisServices.RedisService.Get | src/services/redis.service.ts:196-205 | the value exactly while it has not expired and was used within the hour; otherwise the entry is removed |
| RedisServices.RedisService.SetExpiring | src/services/redis.service.ts:244-250 | the key holds the value until its time to live is over |
| RedisServices.RedisService.TimeToLive | src/services/redis.service.ts:251-257 | the whole seconds left, or -2; asking is a use of the entry |
| RedisServices.RedisService.UpdateCacheMetadata | src/services/redis.service.ts:1045-1064 | the rewrite of one entry's metadata and, by whole seconds, of its expiry |
| RedisServices.RedisService.StoreCache | src/services/redis.service.ts:837-902 | the entries written for the three strategies, each with its own time to live |
| RedisServices.RedisService.AddMatch | src/services/redis.service.ts:788-806 | one key joins the matches exactly if it is live, passes the filters and is similar enough |
| RedisServices.RedisService.FindSemanticMatches | src/services/redis.service.ts:777-818 | only eligible entries, most similar first; all of them, or the five most similar |
| RedisServices.RedisService.CheckSemantic | src/services/redis.service.ts:716-741 | the most similar of the eligible entries, or a miss if there is none |
| RedisServices.RedisService.CheckCache | src/services/redis.service.ts:640-741 | exact match, then deduplication, then the most similar entry, then a miss; the cache changes by exactly the step of a check |
| RedisServices.RunIsSound | src/services/redis.service.ts:661-664 | in every sequential run what a check parses under an exact or deduplication key is what a store put there |
| CacheRuns.RewriteKeepsValue | src/services/redis.service.ts:1050-1057 | a metadata rewrite keeps the value, never moves expiry later and by less than a second earlier, and sets the hits to 1 whatever they were |
| CacheRuns.ExactRun | src/services/redis.service.ts:640-902 | after every run an exact key holds the latest response, expiring at most a second early for every check since, unless it went unused for an hour, with at most one hit on record |
| CacheRuns.DedupRun | src/services/redis.service.ts:694-883 | after every run a deduplication key holds the latest response stored with deduplication, until five minutes are over |
| CacheRuns.ExactHitIsLatest | src/services/redis.service.ts:653-691 | an exact hit carries the latest unexpired response for the same prompt, provider, model and user, used at least every hour; while that holds and a second is left for every check since, the hit is certain |
| CacheRuns.ExactHitIsCertain | src/services/redis.service.ts:653-691 | for a time to live of at most an hour it is certain however rarely the entry is used |
| CacheRuns.DedupHitIsLatest | src/services/redis.service.ts:693-710 | without an exact hit, deduplication hits exactly while the latest response stored for the prompt with deduplication is younger than five minutes, and carries it |
| CacheRuns.SemanticRun | src/services/redis.service.ts:716-902 | after every run a semantic key holds the latest response stored for similarity search, last used when a search found it in time, until a day is over |
| CacheRuns.EligibleIffCandidate | src/services/redis.service.ts:787-806 | an entry can be a match exactly if the latest such store under its key is younger than a day, was stored or searched within the hour, was for the user, model and provider of the check as far as the check names them, and is similar enough |
| CacheRuns.SemanticHitIsLatestAndBest | src/services/redis.service.ts:712-741 | without another hit, similarity search hits exactly if it is on and there is such a store; it then carries the response of one, and none is more similar |
| CacheRuns.SemanticHitIsForTheAsker | src/services/redis.service.ts:793-798 | in every run a similarity hit for a named user carries a response that was stored with exactly that user, and likewise for model and provider |
| CacheRuns.SemanticHitIsBounded | src/services/redis.service.ts:734-739 | a reported similarity is at least the threshold and at most 1 |

## Left out

- BuildDependencyGraph: asks for a non-empty body, because on an empty one the loop over parents never ends.
- Group ids, resource utilization, the analysis of parallelization opportunities, warning texts and logging: derived numbers and strings.
- Rounding, infinities and not-a-number: latencies, priorities, importances and vectors are real numbers, and `sqrt` is assumed exact where a bound is stated.
- ExporterReplied is one step from the reply to the wait for persistence: a failure of the persistence itself, which is logged and swallowed, is not part of this model, and neither is a reply that never comes or comes twice.
- AddToBuffer, OnEnd: span enrichment before buffering, shutdown, and the persistence and recovery of the buffer through Redis are left out.
- CountIsStreak, OpensExactlyAtMaximum: for a maximum of at least one failure and options that stay the same for a key, as the guarded calls of a service use them.
- LooksAbsentIffBlank, SweepIsInvisibleIff, SweepsChangeNothing: for guarded calls of which none overlap; `OverlappingCalls` has the statements for all interleavings.
- ExecuteWithCircuitBreaker: the service's local copies of state and count, timeouts and the retry helper are left out, as is `recordFailureForWindow`.
- The parser of prompts, its analysis, the summarizer and the tokenizer: compilation starts from an arbitrary body, and token estimates are a parameter.
- FoldConstants, EliminateDeadCode: the descriptions and cost figures of transformations are left out; modifiers of instructions and the inside of conditionals, loops, variables and output formats are one opaque kind of statement, which no pass looks into.
- MergeLiteral: metadata is its positions, tokens and importance only.
- GenerateIR: operands and dependencies only; estimated times and the parallel groups of the analysis are left out.
- CheckCache: one check reads the clock once; time that passes between its own steps, other calls in between, statistics, events and the environment switch for similarity search are left out.
- FindSemanticMatches: keys are matched from their beginning, as Redis does; the in-memory client also tries keys that contain the prefix further on, which hold no embedding, so that the search only uses those entries, or drops them when they have expired.  Embedding generation and its cache are a function.
- ExactHitIsLatest, DedupHitIsLatest: under the assumption that the digests of the prompts at hand do not collide, and for exact hits that no colon splits the identity that is checked.
- StoreCache: a response is a string that survives serialization; tokens and cost in the metadata are left out.  A time to live is a natural number.
- The Redis connection, its fallback, eviction from the in-memory map, clearing, user and cache statistics: library or network behaviour.
