# Verified model of KinePlex

KinePlex runs distributed graphs of work and steers them with a geometric controller. This
project models the parts whose behaviour is hardest to see from one function body, and proves what
they guarantee over all inputs, all runs and all interleavings:

- **Topology engine** (`Topology`, `EdgeCount`, `Components`, `Forests`, `Simplex2Discoverer`): the
  undirected graph, its components by depth-first search, its triangles, its edge count and the
  number the engine reports from the three.
- **Numeric control** (`StepController`, `Statistics`, `EpsilonHistory`, `MetricTensorNormalizer`,
  `GeometricWarmup`): the PID step controller, the bounded history and its variance, in-place
  normalization and the warm-up loop. Doubles are modelled as reals.
- **Gossip membership** (`GossipMerge`, `GossipProtocol`): last-writer-wins merging, the failure
  mark, and the event queue.
- **Per-CPU telemetry** (`Telemetry`, `TelemetryInterleaving`): the counters one call at a time, and
  lock-free writers interleaved field by field with one summing reader.
- **Submission and allocation** (`Graphs`, `GraphStore`, `ConcurrentSubmission`, `ClusterManager`,
  `ConcurrentAllocation`, `NodeControl`, `ControlRuns`): idempotent submission and allocation, both
  as whole calls and as interleaved lock steps; admission, reallocation, cancellation and whole runs
  of the control plane.
- **Latency percentile** (`SloTracker`).

`dafny verify dfyconfig.toml` checks everything. Code that updates state is a class with methods
proved against specification functions; the theorems are lemmas about those functions and about
runs of them. Hash tables are walked in an order the model leaves open (`Sequences.Enumerate`), so
every result holds for every order. Clocks, random ids and the answers of the metric system are
parameters.

## What turned out not to hold

Each line names the lemma with the input that shows it, a concrete one or a whole family of them,
and the lemma with the exact condition.

| what the code does | shown by | exactly when |
|---|---|---|
| `count_edges` takes every edge for "counted twice" and misses self-loops | `LoneLoopIsNotCounted` | `CountIsExactWithoutLoops`: the count is right iff there is no self-loop |
| `betti_number` is not the number of independent cycles: a lone triangle reports 2 | `TriangleReportsTwo` | `BettiIsCycleRankIff`; on a connected loop-free graph it is right iff there is no triangle (`ConnectedBettiIsCycleRankIff`) |
| `is_stable` accepts states that drift without any input | `StableCanDrift` | `AtRestForGoodIff`: epsilon stays iff neither the first call's push nor the integral's can move it |
| `is_volume_stable` accepts every volume when the target is negative | `StabilityMeaning` | `StabilityMeaning`, by the sign of the target |
| `normalize_with_clamp` can leave more than the target | `TinyVolumeExceeds`, `NegativeWeightExceeds` | `WithinTargetIff` for any signs and target; for non-negative weights `ClampExceedsIff` |
| warm-up reports `converged: true` when nothing converged | `ReportedButNotConverged` | `ConvergedFlagMeaning` |
| two replicas that know the same records need not agree, and a failure mark is enough for that | `FailureSplitsLatest` | `ReplicasAgreeIff`: they always come to agree iff, node by node, the latest record is unique or both already hold the same latest one |
| a failure mark does not spread | `MarkDoesNotSpread` | `RecordReachesIff`, `RecordInMessageReachesIff` |
| a node that left is brought back by an old record | `OldRecordBringsBack` | `LeftNodeReturnsIff` |
| the event log misses what merges do | `MergeLeavesNoEvent` | `EventLogIff`: replay rebuilds the table throughout iff no merge meets an unknown node or a newer record |
| a telemetry snapshot can show more drops than packets while writers run | `SnapshotCanShowMoreDropsThanPackets` | `ReportedInOrderIff`, `SnapshotConsistentIff`: what was written between the two reads against the lead at the first |
| concurrent calls with one key can create two graphs, where `COMPLETUDE.md:32` says idempotency prevents it | `TwoGraphsForOneKey` | `OneGraphPerKeyIff` |
| two concurrent allocations can take one node | `OneNodeForTwo` | `HeldTwiceIff`, among all other calls on the cluster; `GivenTwiceIff` when nothing is returned to ready |
| a tenant's places come back only by registering the tenant anew, whatever became of its graphs | `RegisteringAgainAdmitsAgain` | `ActiveFallsIff`; what is admitted in between is `QuotaSinceRegistration` |
| no graph submitted to the control plane can be cancelled | `NothingToCancel` | `RunningIff` |

## Where the code and docs/geometric-control.md differ

The model follows the code.

- `betti_number`: the document has edges - nodes + triangles, and 0 when there are fewer edges than
  nodes; the code adds 1 and clips nothing.
- `normalize`: the document refuses a volume of exactly zero and knows no underflow; the code
  refuses volumes below EPSILON in magnitude and reports underflow.
- `check_convergence`: the document compares the current variance with the threshold; the code
  takes the variance of the last ten readings.
- The acceptance criterion at docs/geometric-control.md:285 lets the engine become operational only
  after it has settled; the code, like the document's own listing, does so also when the spikes run
  out in time (`ConvergedFlagMeaning`, `GeometricWarmup.RunWarmup`).

## Model

| member | source | states |
|---|---|---|
| `Topology.WithEdgeMeaning` | kineplex-core/src/geometry.rs:304-307 | adding an edge adds exactly its two ends as keys and exactly that pair, in both directions, and keeps the table symmetric |
| `Topology.WithoutEdgeMeaning` | kineplex-core/src/geometry.rs:310-317 | removing an edge drops exactly that pair, in both directions, and forgets no node |
| `Topology.RemoveThenAdd` | kineplex-core/src/geometry.rs:304-317 | removing an edge that is there and adding it again restores the table |
| `Topology.BuiltMeaning` | kineplex-core/src/geometry.rs:297-317 | after any run of updates the table is symmetric, two nodes are adjacent iff the last update naming the pair added it, and the keys are all endpoints ever added |
| `Simplex2Discoverers.Simplex2Discoverer.constructor` | kineplex-core/src/geometry.rs:297-301 | a new engine is empty and symmetric |
| `Simplex2Discoverers.Simplex2Discoverer.AddEdge` | kineplex-core/src/geometry.rs:304-307 | keeps the table symmetric, adds exactly the pair and its two ends, and changes no other adjacency |
| `Simplex2Discoverers.Simplex2Discoverer.RemoveEdge` | kineplex-core/src/geometry.rs:310-317 | keeps the table symmetric, drops exactly the pair, forgets no node, and changes no other adjacency |
| `Simplex2Discoverers.Simplex2Discoverer.FindTriangles` | kineplex-core/src/geometry.rs:320-354 | every set of three distinct pairwise adjacent nodes exactly once and nothing else, whatever the walk order, so the count is the number of triangles |
| `Simplex2Discoverers.Simplex2Discoverer.CountEdges` | kineplex-core/src/geometry.rs:357-363 | the number of edges between distinct nodes plus half the self-loops, whatever the walk order |
| `Simplex2Discoverers.Simplex2Discoverer.BettiNumber` | kineplex-core/src/geometry.rs:366-378 | the value is fixed by the graph alone: counted edges - nodes + triangles + 1, and 0 when empty |
| `Simplex2Discoverers.Simplex2Discoverer.DfsCollect` | kineplex-core/src/geometry.rs:396-407 | terminates; appends each newly visited node once, all of them connected to the start, and leaves no unvisited neighbour of a newly visited node |
| `Simplex2Discoverers.Simplex2Discoverer.Partitions` | kineplex-core/src/geometry.rs:381-394 | lists exactly the connected components, each once and without repetition, whatever the walk order |
| `Simplex2Discoverers.ComponentsMeaning` | kineplex-core/src/geometry.rs:381-407 | read node by node: lists are non-empty and disjoint, cover every key, two nodes share one iff a path joins them, and their number is fixed by the graph |
| `EdgeCount.Handshake` | kineplex-core/src/geometry.rs:357-363 | the degree sum is twice the edges between distinct nodes plus the self-loops |
| `EdgeCount.CountIsExactWithoutLoops` | kineplex-core/src/geometry.rs:357-363 | the count equals the number of edges, self-loops included, iff there is no self-loop |
| `EdgeCount.LoneLoopIsNotCounted` | kineplex-core/src/geometry.rs:357-363 | a graph whose only edge is a self-loop counts no edge |
| `Components.ConnectedWithEdge` | kineplex-core/src/geometry.rs:304-307 | what is connected after adding an edge: what was, and what the edge now joins |
| `Components.AddingAnEdge` | kineplex-core/src/geometry.rs:304-307 | adding an edge between existing nodes replaces the two ends' components by their union and touches no other |
| `Components.RemovingAnEdge` | kineplex-core/src/geometry.rs:310-317 | removing an edge keeps the number of components iff its ends stay connected, and else raises it by one |
| `Components.AddEdgeEffect` | kineplex-core/src/geometry.rs:304-317 | adding an absent edge between distinct nodes, old or new, raises the edge count by exactly one; each new node brings a component and the ends' components become one |
| `Components.RemoveEdgeEffect` | kineplex-core/src/geometry.rs:310-317 | removing an edge lowers the edge count by exactly one and adds a component iff the ends fall apart |
| `Forests.RedundantEdgeLiesOnCycle` | kineplex-core/src/geometry.rs:365-378 | an edge whose ends stay connected without it lies on a cycle |
| `Forests.CycleHasRedundantEdge` | kineplex-core/src/geometry.rs:365-378 | the closing edge of a cycle is redundant for connectedness |
| `Forests.ForestCount` | kineplex-core/src/geometry.rs:365-378 | edges are at least nodes - components, with equality iff there is no cycle |
| `Forests.BettiBounds` | kineplex-core/src/geometry.rs:366-378 | the reported number is at least triangles + 1 - components, and equals 1 - components iff the graph is a forest with at most one self-loop |
| `Forests.BettiZeroIffTree` | kineplex-core/src/geometry.rs:366-378 | on a connected graph without self-loops the reported number is 0 iff the graph is a tree |
| `Forests.CycleRankMeaning` | kineplex-core/src/geometry.rs:366-378 | the number of independent cycles, edges less nodes plus components, is never negative and is 0 iff there is no cycle |
| `Forests.BettiIsCycleRankIff` | kineplex-core/src/geometry.rs:366-378 | the reported number is the number of independent cycles iff half the self-loops plus the triangles plus one is the number of components, or the graph is empty |
| `Forests.ConnectedBettiIsCycleRankIff` | kineplex-core/src/geometry.rs:366-378 | on a connected loop-free graph they agree iff there is no triangle |
| `Forests.TriangleReportsTwo` | kineplex-core/src/geometry.rs:365-378 | three add_edge calls make a graph with one independent cycle that is reported as 2 |
| `StepController.AdaptiveStepController.constructor` | kineplex-core/src/geometry.rs:39-50 | the initial gains, limits and state |
| `StepController.AdaptiveStepController.Compute` | kineplex-core/src/geometry.rs:66-89 | one step of the controller; the value returned is within the limits and the integral within 100 of zero, whatever the input |
| `StepController.Run` | kineplex-core/src/geometry.rs:66-89 | over any run gains and limits never change, and after the first call epsilon is within its limits and the integral within 100 of zero |
| `StepController.Outputs` | kineplex-core/src/geometry.rs:83-88 | every value a run returns is within the limits |
| `StepController.RunIsFree` | kineplex-core/src/geometry.rs:66-89 | a run whose running sums pass no limit ends with epsilon less kp times the sum of the changes, plus ki times the sum of the integrals, less kd times the last change and the error before the run; the integral is less the sum of the changes, the error is the last change negated |
| `StepController.StrictRunIsFree` | kineplex-core/src/geometry.rs:66-89 | the same, told from the results: for any run none of whose integrals or outputs is at a limit |
| `StepController.LastCallIsCut` | kineplex-core/src/geometry.rs:66-89 | when the last call passes limits, each value ends at the limit it passes, and epsilon misses ki times what was cut off the integral and nothing else |
| `StepController.IntegralFalls` | kineplex-core/src/geometry.rs:73-75 | under a constant positive change the integral falls on a straight ramp, cut off at -100 |
| `StepController.CallsToCover` | kineplex-core/src/geometry.rs:66-89 | the least number of calls whose steps of the given size cover the span |
| `StepController.RisePins` | kineplex-core/src/geometry.rs:66-89 | after the integral has unwound and the proportional steps have covered the range, epsilon is at its minimum for good |
| `StepController.RisePinsToMinimum` | kineplex-core/src/geometry.rs:66-89 | from any integral within 100, a constant rise pins epsilon to epsilon_min within 1 + ceil(100/c) + ceil((max-min)/(kp c)) calls, whatever kd and the starting epsilon |
| `StepController.FallPinsToMaximum` | kineplex-core/src/geometry.rs:66-89 | a constant fall pins epsilon to epsilon_max within as many calls |
| `StepController.AtRestIff` | kineplex-core/src/geometry.rs:66-99 | from any state, a call without a change leaves epsilon alone iff epsilon is within its limits and the sum of the integral and derivative terms vanishes or presses against the limit on its side; the last error counts in the first call only |
| `StepController.AtRestForGoodIff` | kineplex-core/src/geometry.rs:66-99 | epsilon never moves under calls without a change iff that holds of the first call's push and of the integral term alone |
| `StepController.StableAfterRunIff` | kineplex-core/src/geometry.rs:66-99 | after a run that passes no limit, `is_stable` holds iff the last change is below 0.001 and integral less the sum of the changes below 0.01 in magnitude |
| `StepController.Climbs` | kineplex-core/src/geometry.rs:66-99 | with no error left over, epsilon climbs by the integral term on every call until it reaches its limit |
| `StepController.StableCanDrift` | kineplex-core/src/geometry.rs:97-99 | two accepted states: one climbs call after call to the upper limit, the other is moved by the derivative term alone |
| `EpsilonHistories.EpsilonHistory.Push` | kineplex-core/src/geometry.rs:123-128 | the history always holds the last max_samples values pushed |
| `EpsilonHistories.EpsilonHistory.GetVariance` | kineplex-core/src/geometry.rs:131-142 | the variance of the last max_samples values pushed: n^2 times it is n times the sum of their squares less the square of their sum; never negative and 0 iff they are all equal |
| `Statistics.VarianceVanishIff` | kineplex-core/src/geometry.rs:131-142 | the variance is never negative and is 0 iff all samples are equal |
| `Statistics.VarianceValue` | kineplex-core/src/geometry.rs:131-142 | n^2 times the variance is n times the sum of the squares less the square of the sum |
| `Statistics.VarianceBound` | kineplex-core/src/geometry.rs:131-142 | samples within [lo, hi] have variance at most (hi-lo)^2/4 |
| `Statistics.BoundIsAttained` | kineplex-core/src/geometry.rs:131-142 | two samples at lo and hi have exactly that variance |
| `Statistics.MaxVarianceIsQuarter` | kineplex-core/src/geometry.rs:131-142 | the bound used is (hi-lo)^2/4 |
| `EpsilonHistories.ControlledVarianceBound` | kineplex-core/src/geometry.rs:83-142 | any window over the outputs of one controller has variance at most (epsilon_max-epsilon_min)^2/4 |
| `EpsilonHistories.PinnedWindowIsStill` | kineplex-core/src/geometry.rs:66-142 | a window taken after a constant rise has pinned epsilon has no variance |
| `MetricTensorNormalizers.MetricTensorNormalizer.NormalizeWeights` | kineplex-core/src/geometry.rs:215-241 | a volume below EPSILON is reported and left alone; otherwise every weight up to the first whose share of the target is out of range becomes its share, that share is reported as overflow or underflow, and the later weights stay |
| `MetricTensorNormalizers.MetricTensorNormalizer.NormalizeWithClamp` | kineplex-core/src/geometry.rs:244-261 | each weight becomes its own share of the target, 0 if that is negative, 4294967295 if it is above; a volume below EPSILON is left alone; the greatest weight is returned |
| `MetricTensorNormalizers.ClampWeightByWeight` | kineplex-core/src/geometry.rs:244-261 | the same of the specification function, without the function's own formula |
| `MetricTensorNormalizers.NormalizeWeightByWeight` | kineplex-core/src/geometry.rs:215-241 | the same for `normalize`: which weights are shares, which are untouched, and what is reported |
| `MetricTensorNormalizers.NormalizedMeaning` | kineplex-core/src/geometry.rs:215-241 | success iff no scaled weight is out of range; then the weights are one multiple of the originals and sum exactly to the target |
| `MetricTensorNormalizers.FailureMeaning` | kineplex-core/src/geometry.rs:226-238 | on failure exactly the prefix through the first offending position is scaled, its value is reported, and the two errors are told apart by it |
| `MetricTensorNormalizers.NormalizeTwice` | kineplex-core/src/geometry.rs:215-241 | a second call moves nothing, and succeeds iff the target is at least EPSILON in magnitude |
| `MetricTensorNormalizers.ClampedVolume` | kineplex-core/src/geometry.rs:244-261 | for any signs, whenever the volume is at least EPSILON in magnitude, what a call leaves sums to the target less what was cut off above plus what was raised to 0 |
| `MetricTensorNormalizers.WithinTargetIff` | kineplex-core/src/geometry.rs:244-261 | for any signs and target, what a call leaves is at most the target iff a volume too small to count already was, or what is cut off above is at least what is raised to 0 |
| `MetricTensorNormalizers.ClampExceedsIff` | kineplex-core/src/geometry.rs:244-261 | for non-negative weights and target, what a call leaves sums to at most the target iff the volume was at least EPSILON or already at most the target; a volume of at least EPSILON ends on the target iff nothing is clipped |
| `MetricTensorNormalizers.TinyVolumeExceeds` | kineplex-core/src/geometry.rs:244-261 | a volume of half EPSILON is left above a target of 0 |
| `MetricTensorNormalizers.NegativeWeightExceeds` | kineplex-core/src/geometry.rs:244-261 | with a negative weight the clamped sum can exceed the target |
| `MetricTensorNormalizers.StabilityMeaning` | kineplex-core/src/geometry.rs:274-278 | for a positive target the check means within the tolerated fraction; for a negative one it always passes, for a target of 0 never |
| `GeometricWarmups.TrimKeepsTest` | kineplex-core/src/geometry.rs:532-580 | trimming the history never changes the convergence decision, for any cap of at least ten |
| `GeometricWarmups.FirstSettled` | kineplex-core/src/geometry.rs:523-548 | the least number of readings at which the convergence check passes |
| `GeometricWarmups.GeometricWarmup.RunWarmup` | kineplex-core/src/geometry.rs:516-564 | the outcome on all paths (early exit, failing spike, timeout, exhaustion), when the system becomes operational, and the history left |
| `GeometricWarmups.SpikesUsedIff` | kineplex-core/src/geometry.rs:523-580 | k spikes are reported iff k is the least number of readings, at least ten, whose last ten have variance below the threshold, or k is all the spikes, none failed, the readings never settled and time is not up |
| `GeometricWarmups.EarlyExit` | kineplex-core/src/geometry.rs:523-580 | readings that first settle at reading k, the last one included, end the warm-up there whatever the final clock |
| `GeometricWarmups.UnsettledEnds` | kineplex-core/src/geometry.rs:523-563 | readings that never settle end in exactly the failing spike's error, exactly a timeout carrying the time at the check, or a success timed at the end; and every error is of such readings |
| `GeometricWarmups.ConvergedFlagMeaning` | kineplex-core/src/geometry.rs:542-563 | the flag is set on every success; it is true of the readings when fewer spikes than configured are reported, true iff the last ten are settled when all are, and never with fewer than ten spikes |
| `GeometricWarmups.ReportedButNotConverged` | kineplex-core/src/geometry.rs:558-563 | five unsettled spikes reported as converged |
| `GossipMerge.MergeHoldsLatest` | kineplex-net/src/gossip.rs:156-170 | after any merges the members are the union of the nodes known and each record has the greatest heartbeat known |
| `GossipMerge.MergeAppend` | kineplex-net/src/gossip.rs:156-170 | merging in two calls or in one is the same |
| `GossipMerge.DeliverIsOneMerge` | kineplex-net/src/gossip.rs:156-170 | any batching of the same records gives the same table |
| `GossipMerge.SameKnowledgeSameTable` | kineplex-net/src/gossip.rs:156-170 | replicas with the same initial-plus-received record set, each node's latest record being unique, hold equal tables |
| `GossipMerge.ReplicasConverge` | kineplex-net/src/gossip.rs:156-170 | the same over a network that reorders, duplicates and regroups records |
| `GossipMerge.ReplicasAgreeIff` | kineplex-net/src/gossip.rs:156-170 | two replicas, with whatever tables, that come to know the same records end up equal under every delivery iff for each node its latest record is unique or both already hold the same latest record of it |
| `GossipMerge.OrderIndependentIff` | kineplex-net/src/gossip.rs:156-170 | from empty tables that is: iff each node's latest record is unique |
| `GossipMerge.MarkDoesNotSpread` | kineplex-net/src/gossip.rs:125-170 | with equal heartbeats two replicas keep their own records whatever they exchange |
| `GossipMerge.RecordReachesIff` | kineplex-net/src/gossip.rs:156-170 | a replica that merges a record ends up holding it iff it does not know the node, holds that record, or holds one with a smaller heartbeat |
| `GossipMerge.RecordInMessageReachesIff` | kineplex-net/src/gossip.rs:156-170 | the same for the newest record of a node within any message |
| `GossipMerge.MergeChangesNothingIff` | kineplex-net/src/gossip.rs:156-170 | a message changes nothing iff none of its records is of an unknown node or newer than the one held |
| `GossipProtocols.GossipProtocol.constructor` | kineplex-net/src/gossip.rs:92-105 | a new protocol knows only itself, as connected, with no events |
| `GossipProtocols.GossipProtocol.RegisterNode` | kineplex-net/src/gossip.rs:108-114 | members and pending events after a registration |
| `GossipProtocols.GossipProtocol.Leave` | kineplex-net/src/gossip.rs:117-122 | members and pending events after a leave, nothing for an unknown node |
| `GossipProtocols.GossipProtocol.Fail` | kineplex-net/src/gossip.rs:125-131 | members and pending events after a failure, nothing for an unknown node |
| `GossipProtocols.GossipProtocol.Rejoin` | kineplex-net/src/gossip.rs:134-138 | members and pending events after a rejoin |
| `GossipProtocols.GossipProtocol.ProcessGossip` | kineplex-net/src/gossip.rs:156-170 | the loop computes the merge of the whole message: the union of the nodes known, each with a record of the greatest heartbeat known; no event is emitted |
| `GossipProtocols.GossipProtocol.DrainEvents` | kineplex-net/src/gossip.rs:173-176 | returns all pending events and leaves none |
| `GossipProtocols.GossipProtocol.GetAliveMembers` | kineplex-net/src/gossip.rs:141-147 | exactly the members with status Connected other than the node itself, each once |
| `GossipProtocols.EmittedStep` | kineplex-net/src/gossip.rs:108-176 | each call appends exactly its own event to all emitted before; merges and draining append none |
| `GossipProtocols.EventLogIff` | kineplex-net/src/gossip.rs:108-176 | replaying drained then pending events rebuilds the members after every step of a run iff no merge in it meets a record of an unknown node or one newer than the one held |
| `GossipProtocols.EventLogRebuilds` | kineplex-net/src/gossip.rs:108-176 | over every run without merges no event is lost, duplicated or reordered |
| `GossipProtocols.HeartbeatOverRun` | kineplex-net/src/gossip.rs:125-170 | through any run that does not itself replace the node its heartbeat never decreases, and changes iff a merge brings a greater one |
| `GossipProtocols.FailureMarkPersists` | kineplex-net/src/gossip.rs:125-170 | a failed node stays out of the alive members until it is registered, rejoins, leaves or is gossiped with a strictly greater heartbeat |
| `GossipProtocols.NewerRecordDecides` | kineplex-net/src/gossip.rs:125-170 | a record with a greater heartbeat replaces the marked one |
| `GossipProtocols.AliveAfterFailureIff` | kineplex-net/src/gossip.rs:125-170 | over any run without another mark, registration, rejoin or leave of it, a failed node is alive again iff merges brought a greater heartbeat and the first record with the greatest one is connected |
| `GossipProtocols.ListedIff` | kineplex-net/src/gossip.rs:141-170 | over any run without a registration, rejoin, leave or mark of it, a node is listed as alive iff it is not the lister and the newest record held or brought says connected |
| `GossipProtocols.LeftNodeReturnsIff` | kineplex-net/src/gossip.rs:117-170 | a node that left is back iff some later merge carries any record of it |
| `GossipProtocols.OldRecordBringsBack` | kineplex-net/src/gossip.rs:117-170 | a leave followed by a merge of an older record leaves the node a member again |
| `GossipProtocols.MergeLeavesNoEvent` | kineplex-net/src/gossip.rs:156-176 | a merged newcomer is a member that replaying the events does not produce |
| `GossipProtocols.FailureSplitsLatest` | kineplex-net/src/gossip.rs:125-170 | when one of two replicas that agreed on a node marks it as failed, its latest record is ambiguous, and no exchange of what they hold, in any amount or order, makes their tables equal again |
| `Telemetry.KineplexGeoTelemetry.Init` | kineplex-kernel/src/kineplex_geo_telemetry.c:11-26 | allocates zeroed counters for every possible CPU |
| `Telemetry.KineplexGeoTelemetry.Record` | kineplex-kernel/src/kineplex_geo_telemetry.c:37-54 | adds exactly the event's worth to the fields of one CPU, and nothing before initialisation |
| `Telemetry.KineplexGeoTelemetry.TakeSnapshot` | kineplex-kernel/src/kineplex_geo_telemetry.c:56-78 | every counter is one tally of all events since the last reset, however they were spread over CPUs; zeros before initialisation |
| `Telemetry.KineplexGeoTelemetry.Reset` | kineplex-kernel/src/kineplex_geo_telemetry.c:80-93 | forgets all events recorded |
| `Telemetry.SpreadDoesNotMatter` | kineplex-kernel/src/kineplex_geo_telemetry.c:67-77 | the sum of the CPUs' tallies is one tally of all events |
| `TelemetryInterleaving.ProgramAddsWorth` | kineplex-kernel/src/kineplex_geo_telemetry.c:46-53 | the increments of one call add up to the event's worth |
| `TelemetryInterleaving.SnapshotBracket` | kineplex-kernel/src/kineplex_geo_telemetry.c:44-77 | under every interleaving each reported counter lies between the true totals at the snapshot's start and end |
| `TelemetryInterleaving.ConsistentAlways` | kineplex-kernel/src/kineplex_geo_telemetry.c:44-53 | at every step of every interleaving each CPU has drops <= packets, samples <= packets and samples <= nanoseconds |
| `TelemetryInterleaving.EveryEventAccounted` | kineplex-kernel/src/kineplex_geo_telemetry.c:37-54 | at every step the counters plus what calls in progress still owe are the start plus a tally of all events begun |
| `TelemetryInterleaving.QuietSnapshotIsExact` | kineplex-kernel/src/kineplex_geo_telemetry.c:37-78 | with no call in progress a snapshot reports exactly the tally of all events |
| `TelemetryInterleaving.QuietSnapshotIsConsistent` | kineplex-kernel/src/kineplex_geo_telemetry.c:56-78 | with no call in progress the reported counters satisfy the three inequalities |
| `TelemetryInterleaving.ReportedInOrderIff` | kineplex-kernel/src/kineplex_geo_telemetry.c:44-77 | under every interleaving, of two counters read one after the other the first is reported at least as large as the second iff what was written to the second between the two reads does not exceed the first's lead when it was read; the difference reported is the lead less what was written |
| `TelemetryInterleaving.SnapshotConsistentIff` | kineplex-kernel/src/kineplex_geo_telemetry.c:44-77 | all three inequalities hold of a snapshot iff that holds of drops and packets, samples and packets, and samples and nanoseconds |
| `TelemetryInterleaving.ExcessIsWrittenBetween` | kineplex-kernel/src/kineplex_geo_telemetry.c:44-77 | a snapshot shows at most as many drops beyond its packets as were written between the two reads, so none when none were; likewise for the other two pairs |
| `TelemetryInterleaving.SnapshotCanShowMoreDropsThanPackets` | kineplex-kernel/src/kineplex_geo_telemetry.c:67-77 | a run in which a snapshot shows more drops than packets |
| `GraphStores.GraphStore.CreateGraph` | kineplex-core/src/graph.rs:30-34 | stores the graph under its id and returns the id |
| `GraphStores.GraphStore.UpdateStatus` | kineplex-core/src/graph.rs:45-51 | changes only the status of a stored graph, or reports it missing |
| `GraphStores.GraphStore.RegisterIdempotency` | kineplex-core/src/graph.rs:60-63 | publishes the key |
| `GraphStores.DistributedGraphExecutor.Submit` | kineplex-core/src/graph.rs:178-195 | a known key returns its graph and changes nothing; otherwise the graph is stored and its key published |
| `GraphStores.DistributedGraphExecutor.Cancel` | kineplex-core/src/graph.rs:198-201 | sets the status, or reports the graph missing |
| `GraphStores.KeysNameFirst` | kineplex-core/src/graph.rs:178-195 | over any run every key used names the graph of the first request with it |
| `GraphStores.RepeatReturnsFirst` | kineplex-core/src/graph.rs:178-195 | every request returns the id of the first request with its key, or its own without a key |
| `GraphStores.OneGraphPerKey` | kineplex-core/src/graph.rs:178-195 | with fresh ids there are as many graphs as keyless requests plus distinct keys |
| `GraphStores.StoredIs` | kineplex-core/src/graph.rs:178-195 | over any run, under an id is stored the very graph of the last request with that id among those no earlier request shared a key with |
| `GraphStores.StoredComesFrom` | kineplex-core/src/graph.rs:178-195 | and nothing else is stored |
| `GraphStores.StoredIff` | kineplex-core/src/graph.rs:178-195 | with fresh ids a request's graph is stored, unchanged, iff it is the first with its key or has none |
| `ConcurrentSubmission.AlwaysResolves` | kineplex-core/src/graph.rs:178-195 | under every interleaving each visible key and each returned id names a stored graph |
| `ConcurrentSubmission.OneCreatorIff` | kineplex-core/src/graph.rs:178-195 | a key gets at most one creating call iff no check of it falls between another call's missed check and registration |
| `ConcurrentSubmission.OneIdPerKey` | kineplex-core/src/graph.rs:178-195 | without such an overlap all calls that return with a key return the id it names |
| `ConcurrentSubmission.OneGraphPerKeyIff` | kineplex-core/src/graph.rs:178-195 | with fresh ids and all calls returned, a key has at most one stored graph iff there was no overlap |
| `ConcurrentSubmission.TwoGraphsForOneKey` | kineplex-core/src/graph.rs:178-195 | two overlapping calls create two graphs and return different ids for one key |
| `Clusters.ClusterManager.constructor` | kineplex-node/src/lib.rs:85-101 | a new cluster holds its own node, ready |
| `Clusters.ClusterManager.RegisterNode` | kineplex-node/src/lib.rs:104-107 | stores the node under its id |
| `Clusters.ClusterManager.GetReadyNodes` | kineplex-node/src/lib.rs:110-116 | exactly the ready nodes, each once |
| `Clusters.ClusterManager.AllocateNodes` | kineplex-node/src/lib.rs:119-122 | min(required, ready) distinct ready nodes |
| `Clusters.ClusterManager.UpdateNodeState` | kineplex-node/src/lib.rs:125-130 | changes only the state of a known node |
| `Clusters.ClusterManager.HandleRejoin` | kineplex-node/src/lib.rs:138-151 | the node is ready afterwards, known before or not, and no other node changes |
| `Clusters.MarkedMeaning` | kineplex-node/src/control.rs:177-179 | marking picked nodes makes exactly those execute the graph and changes nothing else |
| `Clusters.StateOverRun` | kineplex-node/src/lib.rs:104-151 | after any run a node is in the state given by the last operation that names it (registered, set, rejoined: ready, allocated: executing), and else as that operation found it |
| `Clusters.NotNamedOverRun` | kineplex-node/src/lib.rs:104-151 | a node that no operation of a run names is as it was |
| `Clusters.SharedNodeBecameReady` | kineplex-node/src/lib.rs:104-151 | two allocations of one run share a node only if some operation in between returned it to ready |
| `ConcurrentAllocation.HeldTwiceIff` | kineplex-node/src/control.rs:174-179 | with reading and marking as separate steps, among registrations, new states and rejoins, two calls at some time hold one node iff one picks it between another's picking and marking of it; a hold lasts from the pick to the first return to ready after the mark |
| `ConcurrentAllocation.HeldMeaning` | kineplex-node/src/control.rs:174-179 | what a call holds it has picked, and once marked it is not ready |
| `ConcurrentAllocation.GivenTwiceIff` | kineplex-node/src/control.rs:174-179 | when nothing is returned to ready, some node is picked by two calls iff one picks it between another's picking and marking of it |
| `ConcurrentAllocation.OneNodeForTwo` | kineplex-node/src/control.rs:174-179 | two calls that both get the only ready node |
| `NodeControls.NodeControl.SetAuthEnabled` | kineplex-node/src/control.rs:117-119 | switches authentication and nothing else |
| `NodeControls.NodeControl.RegisterTenant` | kineplex-node/src/control.rs:122-125 | installs the tenant's whole record, its active count included |
| `NodeControls.NodeControl.ValidateSubmission` | kineplex-node/src/control.rs:128-148 | authentication is required iff it is on and the request has no credentials; the quota is exceeded iff not so and the tenant's active count has reached its limit; a refusal takes no place, an admission takes one |
| `NodeControls.NodeControl.Submit` | kineplex-node/src/control.rs:151-188 | a refused request changes nothing; an admitted one stores the submission and a graph with what it asked for or the defaults, takes exactly min(required or 1, ready) distinct ready nodes, makes exactly those execute the new graph and changes no other |
| `NodeControls.NodeControl.AllocateTo` | kineplex-node/src/control.rs:174-179 | allocation and marking as one step |
| `NodeControls.NodeControl.Cancel` | kineplex-node/src/control.rs:199-218 | succeeds iff the graph is running, and then cancels it and frees the node itself; otherwise an error and no change |
| `NodeControls.NodeControl.HandleNodeFailure` | kineplex-node/src/control.rs:221-237 | marks the failed node, gives the graph to one other ready node if there is one, never to the failed one, and changes no other node |
| `NodeControls.NodeControl.HandleNodeRejoin` | kineplex-node/src/control.rs:240-242 | the rejoining node is ready |
| `ControlRuns.QuotaSinceRegistration` | kineplex-node/src/control.rs:117-188 | over any run of all the calls, since the tenant's last registration exactly the first max - active authorised requests are admitted and the active count is the one installed plus those; it never passes a limit it did not start beyond; an unregistered tenant is never limited |
| `ControlRuns.RefusedExactly` | kineplex-node/src/control.rs:117-148 | after any run: while the last switch was on, a request without credentials is refused for that, full quota or not; any other is refused iff its tenant's installed quota has been used up since |
| `ControlRuns.RefusedChangesNothing` | kineplex-node/src/control.rs:128-188 | such a request takes no place, stores nothing and takes no node |
| `ControlRuns.AdmittedCarryCredentials` | kineplex-node/src/control.rs:117-148 | every request admitted while the last switch was on carried credentials |
| `ControlRuns.StoredGraphs` | kineplex-node/src/control.rs:151-188 | from an empty store, after any run, exactly the graphs of admitted requests are stored, pending, with the tenant, memory, fuel, SIMD and output path asked for or the defaults |
| `ControlRuns.StoredSubmissions` | kineplex-node/src/control.rs:151-188 | and exactly the admitted requests are on record, the last under each submission id |
| `ControlRuns.ActiveFallsIff` | kineplex-node/src/control.rs:117-242 | a tenant's active count falls somewhere in a run iff some registration of that tenant installs a smaller one |
| `ControlRuns.RegisteringAgainAdmitsAgain` | kineplex-node/src/control.rs:122-148 | with a limit of one: admitted, refused, registered again, admitted |
| `ControlRuns.RunningIff` | kineplex-node/src/control.rs:151-218 | after any run a graph is running iff it was before and no call cancelled or replaced it |
| `ControlRuns.NothingToCancel` | kineplex-node/src/control.rs:103-218 | from an empty store every graph ever submitted is pending and a cancellation changes nothing |
| `ControlRuns.ControlRunIsClusterRun` | kineplex-node/src/control.rs:151-242 | what any run does to the nodes is a legal run of the cluster's own operations |
| `ControlRuns.SecondGraphNeedsReturn` | kineplex-node/src/control.rs:151-242 | from an empty store a node goes to a second graph, by a submission or a reallocation, only if it rejoined or was made ready by a direct call on the cluster in between |
| `SloTrackers.SloTracker.RecordRequest` | kineplex-core/src/metrics.rs:226-237 | the window is always the last 1000 latencies, and the counters count all requests and successes |
| `SloTrackers.SloTracker.P95Latency` | kineplex-core/src/metrics.rs:248-256 | the percentile of that window, with the rank below, and 0 for none |
| `SloTrackers.P95Iff` | kineplex-core/src/metrics.rs:248-256 | the value is a window member and the only number with at most floor(95 n/100) samples below it and at least one more not above it |
| `SloTrackers.P95IgnoresOrder` | kineplex-core/src/metrics.rs:248-256 | it does not depend on the order of arrival |

## Left out

- Floating point: rounding, infinities and NaN; doubles are reals, and the percentile index `len * 0.95` is the integer floor of 95 len / 100.
- Integer width: u64 and usize counters are unbounded, so results hold as long as nothing wraps.
- `EpsilonHistory::has_oscillation`, `MetricTensorNormalizer::is_within_bounds`, `GossipProtocol::convergence`, `SloTracker::current_sli` and `is_slo_met`: single passes or quotients with nothing to connect them to.
- `EpsilonHistories.EpsilonHistory.Push`: with max_samples = 0 the source panics on the first push, so a capacity of at least one is required.
- `StepController.AdaptiveStepController.Compute`: `clamp` panics when the lower limit exceeds the upper one, which `with_limits` does not rule out, so ordered limits are required.
- `SyntheticSpike` contents and the asynchronous calls of the warm-up; the metric system's answers are parameters of `RunWarmup`.
- Memory ordering and preemption inside one `record` call; writers execute their increments in program order, one call at a time per CPU.
- Several telemetry snapshots at once, and a reset while writers or a reader run.
- `DistributedGraphExecutor::execute` and `kineplex-node/src/execution.rs`: their stages are logging and sleeps; `execute` overwrites a cancelled status, so no status is claimed to be final.
- Idempotency key expiry (`IdempotencyKey`): the store never consults it.
- `kineplex-net/src/routing.rs`, `kineplex-net/src/protocol.rs`, the metrics exporter, the Wasm and Arrow layers, the SDK, the CLI, the BPF program and the kernel device: single map operations, foreign libraries or I/O.
- `GraphStore::get_graph` and `NodeControl::get_graph_status`: map lookups.
- Overlapping calls of `NodeControl` other than their allocations (`ConcurrentAllocation`): the runs of `ControlRuns` take whole calls as steps.
