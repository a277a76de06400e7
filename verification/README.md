# kubexm: a verified model of planning, execution and shared resources

kubexm installs and operates Kubernetes clusters. A planner turns pipelines into dependency graphs of nodes; an
executor runs a graph with ten workers, cascades failures, and checkpoints every completion; steps reach the hosts
through pooled SSH connections and share values in tiered caches. This project models those parts and proves what
they keep, over every input, every interleaving and every crash.

Verify with `dafny verify dfyconfig.toml`. Each `.dfy` file is one module.

**Graphs and planning.** `Graphs` holds the mathematics (ranks, cycles, transitive dependencies), `Readiness` the
in-degree counting that the cycle check and the executor share, `NodeOrder` the sorting of node IDs, `PlanGraph` the
queue algorithm of `Validate`, `ExecutionGraphs` the mutable graph and fragment objects. `PhaseBarrier` proves that
linking fragments makes a barrier that the executor cannot cross early, `PipelinePlanner` that the planners' loop builds
exactly such a graph, and `PipelineExecution` what the executor's answer then says of the pipeline.

**Execution.** `Scheduler` is the executor as a transition system: task channel, workers, result channel, counters,
statuses, checkpoint in memory and on disk, and an arbitrary schedule of atomic actions. `SchedulerInvariant` and
`SchedulerSteps` prove its invariant inductive; `SchedulerTheorems` derives termination, channel bounds, dispatch
order, quiescence and progress; `ScheduleIndependence` proves that every schedule reaches the one solution of a
recursive specification, and `Confluence` that all schedules of the same run stop in the same place, finished or
stuck; `CheckpointSafety` covers any number of crashes and resumes, and `CrashHistory` takes it down
to the file system, where a process may die between any two effects of any save. `Executor` is the code itself,
updating its fields in place, each update proved to be a step of that system. `StepRunner` is the retry, backoff and
rollback machine of one host, and runs a node on all its hosts; `PlanResult` is the aggregation of hosts;
`CheckpointFile` the write-then-rename save and the paths it uses.

**Shared resources.** `ConnectionPools` is the pool's critical sections, `PoolSystem` any number of users of them,
`Connectors` the `Connect`/`Close` protocol of one connector, `PoolUsers` many connectors on one pool, `PoolRegistry`
the double-checked creation of pools. `TieredCache` and `CacheHistory` are the expiring tiers and what their users can
observe; `CounterCas` is the compare-and-swap counter.

**Configuration.** `HostRange` expands host patterns; `RoleIndex` gives hosts their roles.

`Wrappers`, `Sequences` and `Words` hold what several modules share: optional values, sequences without repetition, and
64-bit arithmetic.

## What turned out not to hold

Each of these is a property one would expect; the code does not have it in general, and the exact condition under which
it does is proved.

* *A resumed run completes.* In-degrees count dependencies that the checkpoint already records as done, and nothing
  credits them again; a node restored as Failed is never counted. `ResumeCompletesIff`: a run completes under every
  schedule if and only if no restored node is Failed and everything that depends on a done node is itself done.
  `StuckChain` is the smallest example. Fresh runs always complete.
* *A panicking step fails its host.* On the first attempt the error variable is still empty after the recovery, and the
  host ends as Success. `PanicFailsIff`: a step whose last run panicked ends Failed if and only if its first attempt did
  not panic. `PanicCountsAsSuccess` is the step that panics at once.
* *The k-th retry waits min(base·2^(k-1), max).* The shift and the product are 64-bit. `DelaysExactIff`: an executor
  configured for m retries waits as promised before every one of them if and only if base·2^(m-1) < 2^63; the first
  product that overflows always wraps around to a negative delay. `DefaultRetriesIff`: with the default base of one
  second, if and only if m ≤ 34.
* *GetOrSet never answers with an expired value.* `GetOrSetIff`: it behaves as promised if and only if the tier holds no
  expired entry under the key. `ExpiredIsAnswered` is an entry that expired at time 5 and is answered at time 6.
* *A connector returns every connection it takes.* Connecting again while a pooled connection is held forgets it.
  `AllReturnedIff`: all connections taken are returned if and only if that never happens; `ReconnectForgets` is a connector
  that connects twice. In the shared pool every such reconnect costs the key one slot for good, and as many of them as the
  key has slots leave it refusing every later Connect (`ConnectorsShareSafely`, `ReconnectsExhaust`).
* *Giving a connection up keeps the account, whoever does it.* `GiveUpKeepsAccountIff`: after `CloseConnection` the
  counter stands for the connections that are left if and only if the connection was checked out or idle, or the counter
  was zero. `PutBackKeepsAccountIff`: after `Put`, if and only if it was checked out, or it was closed and the counter
  was zero. `DoubleCloseHappens` is a run of five steps after which a second `CloseConnection` of the same client
  brings the counter to zero while another connection is checked out. The conservation results therefore ask that each
  connection taken is returned once, which `ConnectorsShareSafely` discharges for connectors.
* *Expanding a host range returns.* The loop counter is a 64-bit integer. `LoopsForeverIff`: on a range whose ends are
  in order the loop never ends if and only if the range ends at 2^63-1; `LargestRangeIsEndless` is such a pattern.
* *Different pipelines have different checkpoint files.* Paths are cleaned. `PathsEqualIff`: two pipelines share a file
  if and only if the cleaned folder and the file name agree; `PlainNamesDiffer`: for names without a slash, if and only
  if the pipelines are the same. `NamesMayCoincide` has two names with slashes that share a file.

The comment on `CheckpointPath` says that the cluster name is part of the path; the code leaves it out, and the model
follows the code: the equivalences above hold whatever the two clusters are.

## Model

| member | source | states |
|---|---|---|
| Graphs.AcyclicIffNoCycle | internal/plan/graph.go:249-272 | On a self-contained graph a strict rank function over the dependencies exists if and only if there is no dependency cycle. |
| Graphs.StuckSetHasCycle | internal/plan/graph.go:270-272 | Nodes that all wait for one another contain a real cycle, which is returned as a walk. |
| Graphs.AcyclicHasNoCycle | internal/plan/graph.go:256-272 | A ranked graph has no cycle, self-loops and duplicate dependencies included. |
| Readiness.OutstandingAfter | internal/plan/graph.go:262-264 | Meeting a dependency lowers the number of unmet edges by its multiplicity in the list. |
| Readiness.CreditDispatches | internal/engine/executor.go:275-280 | Crediting one success releases a dependent once, exactly when this success was the last thing it waited for, even if it lists the dependency several times. |
| Readiness.SuccessDegrees | internal/engine/executor.go:275-276 | After a success the in-degree counters again equal the number of dependency edges not yet met. |
| Readiness.SuccessDispatch | internal/engine/executor.go:275-280 | After a success every node has been released as often as it is due: once if all its dependencies are met, otherwise never. |
| NodeOrder.BeforeTotal | internal/plan/graph.go:219 | The order on IDs is total and irreflexive. |
| NodeOrder.LessIff | internal/plan/graph.go:219 | One ID goes before another if and only if it is a proper beginning of it, or has the smaller character where they first differ. |
| NodeOrder.ListingUnique | internal/plan/graph.go:193-204 | A set of IDs has one sorted listing, so entry and exit lists do not depend on map iteration order. |
| NodeOrder.UniqueNodeIDs | internal/plan/graph.go:207-221 | The result lists each given ID once, in sorted order, and no other. |
| PlanGraph.InvertEdges | internal/plan/graph.go:228-247 | Succeeds exactly on self-contained graphs; then the dependents lists invert the dependencies with multiplicity and the counters are exact; otherwise it names a missing dependency. |
| PlanGraph.CreditAll | internal/plan/graph.go:262-267 | The inner loop computes the crediting function, in order. |
| PlanGraph.ReadyNodes | internal/plan/graph.go:249-254 | The initial queue holds each node without dependencies once, and no other. |
| PlanGraph.LeftoverCycle | internal/plan/graph.go:270-272 | If the queue runs dry early, the nodes left over contain a cycle. |
| PlanGraph.CountProcessable | internal/plan/graph.go:249-268 | The count reaches the number of nodes if and only if the graph is acyclic; otherwise a cycle exists. |
| ExecutionGraphs.LinkedMember | internal/plan/graph.go:131-137 | Linking adds exactly the edges from every source to every target. |
| ExecutionGraphs.AddEdgesAppends | internal/plan/graph.go:154-160 | Linking appends to a dependency list and brings no repetition into a list that has none. |
| ExecutionGraphs.ExecutionGraph.AddDependency | internal/plan/graph.go:141-161 | Self-dependencies, unknown sources and unknown targets are refused in this order without effect; otherwise the source is appended to the target's list, which is left alone if it already has it, and no other node changes. |
| ExecutionGraphs.ExecutionGraph.LinkTo | internal/plan/graph.go:132-136 | One target receives the sources in order and stops only at itself; no edge is lost, and all new ones come from the sources. |
| ExecutionGraphs.ExecutionGraph.LinkNext | internal/plan/graph.go:131-137 | One turn over the targets takes the linked graph to the next one. |
| ExecutionGraphs.ExecutionGraph.LinkFragments | internal/plan/graph.go:112-139 | Succeeds exactly when a list is empty or both name known nodes and do not overlap. Then, if no node object is stored twice, the graph is the linked graph. Whatever happens, no edge is lost and only edges from the sources, and without shared objects only to the targets, are added; unknown IDs change nothing. |
| ExecutionGraphs.ExecutionGraph.CheckKnown | internal/plan/graph.go:120-129 | Passes exactly if all IDs are nodes, and otherwise names one that is not. |
| ExecutionGraphs.ExecutionGraph.MergeFragment | internal/plan/graph.go:96-110 | Succeeds exactly when no ID clashes and then adds exactly the fragment's nodes; a clash is named, and no node of the graph is ever replaced. |
| ExecutionGraphs.ExecutionGraph.CalculateEntryAndExitNodes | internal/plan/graph.go:163-205 | Entries are the sorted nodes without dependencies, exits the sorted nodes nothing in the graph depends on. |
| ExecutionGraphs.ClosedRoots | internal/plan/fragment.go:121-131 | On a self-contained graph the fragment's notion of entry and the graph's agree. |
| ExecutionGraphs.ExecutionFragment.CalculateEntryAndExitNodes | internal/plan/fragment.go:80-140 | Entries are the sorted nodes without a dependency inside the fragment, exits the sorted nodes nothing in it depends on. |
| ExecutionGraphs.ExecutionGraph.Validate | internal/plan/graph.go:223-294 | Accepts exactly the graphs whose nodes exist, that are self-contained and acyclic, and whose entry and exit lists fit. Nil nodes, missing dependencies and cycles are reported exactly in their case, with a witness; a list error names the first ID in order that does not fit, entries before exits. |
| ExecutionGraphs.CheckEdges | internal/plan/graph.go:228-272 | Missing dependencies are reported before cycles, each exactly when it exists. |
| ExecutionGraphs.ExecutionGraph.CheckLists | internal/plan/graph.go:277-291 | Accepts exactly if every entry is a node without dependencies and every exit is a node; otherwise names the first ID in sorted order that does not fit, and why. |
| PhaseBarrier.BelowAnExit | internal/plan/fragment.go:133-135 | In an acyclic graph every node is an exit or a transitive dependency of one. |
| PhaseBarrier.AboveAnEntry | internal/plan/fragment.go:121-131 | In an acyclic graph every node is an entry or transitively depends on one. |
| PhaseBarrier.JoinedClosed | internal/plan/graph.go:96-139 | Merging a fragment and linking it below the exits keeps the graph self-contained. |
| PhaseBarrier.JoinedAcyclic | internal/plan/graph.go:96-139 | Merging a fragment and linking it below the exits keeps the graph acyclic. |
| PhaseBarrier.JoinedBarrier | internal/plan/graph.go:112-139 | After linking, every node of the first part is a transitive dependency of every node of the second. |
| PhaseBarrier.JoinedExits | internal/plan/graph.go:163-205 | The exits of the joined graph are the exits of the part joined last. |
| PhaseBarrier.AssembledValid | internal/pipeline/cluster/backup.go:57-79 | The graph assembled from any number of planned fragments with different IDs is self-contained and acyclic. |
| PhaseBarrier.PipelineBarrier | internal/pipeline/cluster/backup.go:57-76 | In the assembled graph every node of an earlier fragment is a transitive dependency of every node of a later one, at any distance. |
| PhaseBarrier.NoEarlyDispatch | internal/engine/executor.go:274-281 | In every reachable state, a node of a later fragment has been dispatched only if every node of every earlier fragment is Success. |
| PhaseBarrier.FailureStopsPipeline | internal/engine/executor.go:257-273 | In any completed run, fresh or resumed: if a node of a fragment ends other than Success, every node of every later fragment ends Skipped. |
| PhaseBarrier.PlanAndValidate | internal/plan/graph.go:163-294 | On a self-contained graph, once entry and exit lists are calculated, a cycle is the only reason for Validate to refuse. |
| PhaseBarrier.MergeAndLink | internal/pipeline/cluster/backup.go:67-75 | On the heap, merging and linking one fragment gives the linked graph, and fails exactly on an ID clash. |
| PhaseBarrier.LinkBelow | internal/pipeline/cluster/backup.go:70-74 | Linking below the previous exits, if there are any, gives the linked graph. |
| PipelinePlanner.GrowsIff | internal/plan/graph.go:101-103 | A fragment can be added to a pipeline exactly when its IDs are new to the assembled graph. |
| PipelinePlanner.WholeGrows | internal/pipeline/cluster/backup.go:67-75 | Merging and linking is what takes the assembled graph to the next one. |
| PipelinePlanner.AddModule | internal/pipeline/cluster/backup.go:67-75 | One module's turn on the heap builds the next assembled graph, or fails exactly on an ID clash. |
| PipelinePlanner.MergeModules | internal/pipeline/cluster/backup.go:57-76 | The loop succeeds exactly when no two contributing modules share an ID, and has then built the assembled graph of the non-empty modules. |
| PipelinePlanner.Plan | internal/pipeline/cluster/backup.go:44-85 | If no ID clashes, the finished graph passes Validate and is the assembled graph for which the barrier holds. |
| PipelineExecution.LaterPhasesSkipped | internal/pipeline/cluster/backup.go:87-125 | In the executor's answer to a planned pipeline, fresh or resumed, a node that is not Success leaves every node of every later fragment Skipped. |
| PipelineExecution.SuccessMeansAll | internal/pipeline/cluster/backup.go:87-125 | If the answer is Success, no node skips itself and none was restored as skipped, every node of every fragment is Success. |
| PipelineExecution.PlanAndExecute | internal/pipeline/cluster/backup.go:87-125 | A pipeline whose IDs do not clash is never refused by the executor: it has the executor's answer on the assembled graph, or succeeds at once if it is empty. |
| Scheduler.CascadeFrame | internal/engine/executor.go:258-272 | The skip worklist changes only pending nodes, to Skipped, and counts each once, although it may meet a node many times. |
| Scheduler.CascadeCloses | internal/engine/executor.go:258-272 | Nothing downstream of the worklist is left pending. |
| Scheduler.CascadeJustified | internal/engine/executor.go:258-272 | Every node the worklist skips was on it or depends on a node it skipped. |
| SchedulerInvariant.InitInv | internal/engine/executor.go:136-208 | The state in which the loop starts, fresh or resumed, satisfies the invariant. |
| SchedulerInvariant.DispatchedFacts | internal/engine/executor.go:200-207 | A dispatched node was dispatched once, is not done from an earlier run, and all its dependencies have reported Success. |
| SchedulerSteps.SuccessStatus | internal/engine/executor.go:213-223 | A success changes no other node's standing. |
| SchedulerSteps.SkippedHasBadDep | internal/engine/executor.go:257-273 | After a cascade, a skipped node has a failed or skipped dependency. |
| SchedulerSteps.BadDepIsSkipped | internal/engine/executor.go:257-273 | After a cascade, a node with a failed or skipped dependency is not pending. |
| SchedulerSteps.FailStatus | internal/engine/executor.go:257-273 | After a failure and its cascade a node not reported is Skipped exactly when some dependency failed or was skipped. |
| SchedulerSteps.FailCount | internal/engine/executor.go:198-273 | The progress counter stays short of the node count by the pending nodes and the nodes restored as Failed. |
| SchedulerSteps.ReceiveFacts | internal/engine/executor.go:210-218 | A report always comes from a node that has not reported before, and whose dependencies all succeeded. |
| SchedulerSteps.CoordinateInv | internal/engine/executor.go:210-282 | One iteration of the coordinator keeps the invariant, whether or not the save succeeds. |
| SchedulerSteps.StepInv | internal/engine/executor.go:210-403 | Every action of a worker or the coordinator keeps the invariant. |
| SchedulerSteps.RunInv | internal/engine/executor.go:210-403 | So does every schedule of any length. |
| SchedulerTheorems.ReachableStep | internal/engine/executor.go:210-403 | What any action makes of a reachable state is reachable. |
| SchedulerTheorems.ReachableInv | internal/engine/executor.go:136-403 | The invariant holds in every reachable state: conservation of dispatched nodes, exact counters, exact statuses, exact checkpoint. |
| SchedulerTheorems.ChannelBounds | internal/engine/executor.go:177-178 | Queued, running, waiting and reported nodes never exceed the node count, so no send blocks. |
| SchedulerTheorems.RunsAreShort | internal/engine/executor.go:210-282 | No schedule, fresh or resumed, has more than three actions per node. |
| SchedulerTheorems.TenWorkers | internal/engine/executor.go:181-185 | In every reachable state at most ten nodes run, and a queued node can be taken exactly if fewer do. |
| SchedulerTheorems.TasksAreFifo | internal/engine/executor.go:177-207 | Over every schedule workers take the nodes in the order in which they were dispatched. |
| SchedulerTheorems.ReportsAreFifo | internal/engine/executor.go:178-211 | Over every schedule the coordinator reads the reports in the order in which they were sent. |
| SchedulerTheorems.AncestorsSucceeded | internal/engine/executor.go:274-281 | All transitive dependencies of a dispatched node have succeeded in this run. |
| SchedulerTheorems.DispatchOnceInOrder | internal/engine/executor.go:200-281 | In every reachable state a dispatched node was dispatched once, after all its transitive dependencies reported Success, and is not skipped by a cascade. |
| SchedulerTheorems.CascadeClosure | internal/engine/executor.go:257-273 | In every reachable state, of fresh and of resumed runs, the nodes that failed or were skipped in this run are closed under dependents. |
| SchedulerTheorems.Quiescence | internal/engine/executor.go:284-287 | When the loop exits nothing is queued, running or unreported, and the counter equals the node count. |
| SchedulerTheorems.Progress | internal/engine/executor.go:210-211 | While nodes are unprocessed, and the checkpoint was safe to resume, some worker or the coordinator can move. |
| SchedulerTheorems.RunUntilStuck | internal/engine/executor.go:210-282 | From any state some schedule of successful steps runs until nothing can move. |
| SchedulerTheorems.UnsafeNeverCompletes | internal/engine/executor.go:138-218 | If the condition fails, a run in which every step succeeds never reaches the node count. |
| SchedulerTheorems.ResumeCompletesIff | internal/engine/executor.go:136-218 | A run completes under every schedule if and only if no restored node is Failed and the done nodes are closed under dependents. |
| SchedulerTheorems.FreshRunCompletes | internal/engine/executor.go:210-282 | A run without restored nodes completes under every schedule. |
| SchedulerTheorems.StuckChain | internal/engine/executor.go:138-207 | For any two nodes, the chain of the two with the first recorded Success does not complete. |
| ScheduleIndependence.StepAgrees | internal/engine/executor.go:210-223 | A step never changes the status of a node that has reported. |
| ScheduleIndependence.CompletedSolves | internal/engine/executor.go:210-282 | A run that left its loop has computed a solution of the recursive specification. |
| ScheduleIndependence.SolutionUnique | internal/engine/executor.go:257-281 | On an acyclic graph the specification has one solution. |
| ScheduleIndependence.SchedulesAgree | internal/engine/executor.go:136-298 | Two runs of the same graph with the same node outcomes that left the loop have the same statuses, whatever the interleaving and the map iteration order. |
| ScheduleIndependence.FailureReachesAll | internal/engine/executor.go:257-273 | In a completed run, fresh or resumed, everything below a node that did not succeed is skipped, at any distance. |
| Confluence.Confluent | internal/engine/executor.go:136-298 | Wherever two schedules with the same graph, checkpoint and node outcomes can go no further, finished or stuck, the statuses, the progress counter and the checkpoint in memory are the same. |
| Confluence.BlockingIsDetermined | internal/engine/executor.go:210-211 | So whether a resumed run completes or blocks does not depend on the schedule. |
| CheckpointSafety.MemoryJustified | internal/engine/executor.go:247-253 | A node is in the checkpoint in memory only with all its dependencies recorded Success. |
| CheckpointSafety.RunAcceptable | internal/engine/executor.go:247-253 | So it is on disk after every schedule, whichever saves fail, and no loaded done node is lost. |
| CheckpointSafety.CompletedMemory | internal/engine/executor.go:247-253 | When a run has completed, the checkpoint in memory holds exactly the restored nodes and those all of whose dependencies succeeded, with the statuses they ended in; a node skipped by a cascade has no record. |
| CheckpointSafety.HistoryJustified | internal/engine/executor.go:123-316 | After any number of crashes, resumes, failed saves and failed loads the file records a node only with all its dependencies recorded Success. |
| CheckpointSafety.DoneSurvives | internal/engine/executor.go:187-253 | While the file survives and is loaded, done nodes keep their record. |
| CheckpointSafety.FileLeftAlone | internal/engine/executor.go:248-316 | Without checkpoints a file that happens to be there is never touched. |
| CheckpointSafety.DoneNeverRedispatched | internal/engine/executor.go:187-207 | ... and are never dispatched again in any later generation. |
| CrashHistory.CourseShows | internal/engine/executor.go:210-282 | A run whose saves are writes and renames is a run of the executor, and the directory always shows the file that run says is there. |
| CrashHistory.ProcessFollows | internal/engine/executor.go:123-316 | A process that dies between any two effects of its first save, a save in the loop, or its last save or deletion is a generation, and leaves a whole file or none. |
| CrashHistory.LifetimesAreHistory | internal/engine/executor.go:123-316 | Processes that each find the file the one before left form a history. |
| CrashHistory.FileAlwaysGood | internal/checkpoint/checkpoint.go:133-161 | After any number of processes, each dying at any effect of any save, the file is never torn and records a node only with all its dependencies recorded Success. |
| CrashHistory.RecordedNodeStaysDone | internal/engine/executor.go:187-207 | A node the file of some process records as done is dispatched by no later process, as long as the file is there and is read. |
| CheckpointFile.PathsEqualIff | internal/checkpoint/checkpoint.go:128-130 | In one directory two pipelines have the same path if and only if their cleaned folder and file name agree, whatever the clusters. |
| CheckpointFile.PlainNamesDiffer | internal/checkpoint/checkpoint.go:128-130 | For names without a slash: if and only if the pipelines are the same, whatever the clusters. |
| CheckpointFile.PlainPath | internal/checkpoint/checkpoint.go:128-130 | For a name without a slash the path is the cleaned directory and the name with .checkpoint.json. |
| CheckpointFile.SameFileIff | internal/checkpoint/checkpoint.go:128-130 | Two such names in any two directories are the same file if and only if they are the same name and the directories clean to the same folder. |
| CheckpointFile.CleanedForm | internal/checkpoint/checkpoint.go:128-130 | A cleaned path has no empty component and no dot, and two dots only at the beginning of a relative one. |
| CheckpointFile.NamesAreClean | internal/checkpoint/checkpoint.go:128-130 | Cleaning changes nothing where there is nothing to clean. |
| CheckpointFile.NamesMayCoincide | internal/checkpoint/checkpoint.go:128-130 | x/../a and a have the same path. |
| CheckpointFile.TmpIsNoCheckpoint | internal/checkpoint/checkpoint.go:151 | The temporary file is no pipeline's checkpoint. |
| CheckpointFile.SaveIsAtomic | internal/checkpoint/checkpoint.go:151-158 | A crash at any point of a save leaves the old or the new checkpoint readable, and every checkpoint with another path untouched. |
| CheckpointFile.CheckpointPersister.Save | internal/checkpoint/checkpoint.go:133-161 | Whatever fails: a save that reports success is read back, one that reports an error leaves the old checkpoint readable, other paths are untouched, and the directory is the one after some number of effects. |
| CheckpointFile.CheckpointPersister.Read | internal/checkpoint/checkpoint.go:164-181 | A missing file is no error; a failing read and a torn file are; a whole file is returned. |
| CheckpointFile.CheckpointPersister.Delete | internal/checkpoint/checkpoint.go:184-191 | Removes the pipeline's file and no other; a missing file is no error. |
| Executor.CascadeSkips | internal/engine/executor.go:257-273 | The worklist loop terminates and computes the cascade. |
| Executor.Coordinator.constructor | internal/engine/executor.go:136-208 | Builds an initial state of the transition system; the file then holds the restored nodes if there is a checkpoint and its first save works, and otherwise what it held. |
| Executor.Coordinator.TakeNext | internal/engine/executor.go:394-400 | A worker's receive is the system's take step. |
| Executor.Coordinator.Report | internal/engine/executor.go:400-402 | A worker's send is the system's finish step. |
| Executor.Coordinator.ReceiveReport | internal/engine/executor.go:211-253 | Counting, recording and checkpointing a report is the system's receive step. |
| Executor.Coordinator.SkipDependents | internal/engine/executor.go:257-273 | A failure or skip spreads as in the system. |
| Executor.Coordinator.ReleaseDependents | internal/engine/executor.go:274-281 | A success spreads as in the system. |
| Executor.Coordinator.HandleReport | internal/engine/executor.go:210-282 | One loop iteration is the system's coordinate step. |
| Executor.Coordinator.CoordinatorMoves | internal/engine/executor.go:210-282 | One loop iteration keeps the invariant and advances the work; the file is then the checkpoint in memory if the save works, and otherwise as before. |
| Executor.Coordinator.Step | internal/engine/executor.go:181-282 | Whichever enabled step is chosen, from any checkpoint, stays on a schedule, keeps the invariant and brings the run closer to its end. |
| Executor.Coordinator.Run | internal/engine/executor.go:181-287 | From any checkpoint of this graph: either all nodes are processed, the channels are empty and the statuses are the unique solution of the specification, or nothing can move and the coordinator waits for ever; never the latter from a checkpoint that is safe to resume. The final state is reachable, and if the saves work the file is up to date. |
| Executor.SeedQueue | internal/engine/executor.go:200-207 | Queues each node without dependencies that is not done, once, and no other. |
| Executor.GraphStatus | internal/engine/executor.go:289-297 | The graph is Failed exactly when some node is Failed. |
| Executor.CloseCheckpoint | internal/engine/executor.go:301-316 | With a checkpoint and a deletion or save that works, the file is gone after a success and holds the checkpoint after a failure; otherwise it is the one before. |
| Executor.ExecuteNodes | internal/engine/executor.go:136-316 | On an accepted graph: the statuses solve the specification, the graph status follows, and statuses and file are those that some run of the transition system ends with. With checkpoints and a working close, Success leaves no file and Failed leaves exactly the restored nodes and those that ran; with a failing close the file is the one the loop left, which is the same record if its saves worked; without checkpoints it is untouched. Or the run is stuck, which takes an unsafe checkpoint. |
| Executor.Execute | internal/engine/executor.go:99-320 | Refuses exactly the graphs that Validate refuses, for the reason it gives, leaving the file alone; any other is answered as by ExecuteNodes, the checkpoint file included. |
| PlanResult.NodeResult.AggregateStatus | internal/plan/result.go:62-78 | Failed exactly when some host failed, in whatever order the hosts are visited; otherwise Success. |
| Words.ShiftIsWrapped | internal/engine/executor.go:557 | For any shift, a one shifted left is the power of two reduced to 64 bits. |
| StepRunner.DelayIsWrapped | internal/engine/executor.go:554-563 | For any base, cap and retry, the computed delay is base·2^(k-1) reduced to a signed 64-bit value, and at most the cap. |
| StepRunner.PromiseDoubles | internal/engine/executor.go:75-87 | What is promised starts at the base and doubles up to the cap. |
| StepRunner.NoOverflow | internal/engine/executor.go:557 | Below 2^63 the shift and the product are exact. |
| StepRunner.FirstOverflowIsNegative | internal/engine/executor.go:557 | The first product that overflows wraps around to a negative delay. |
| StepRunner.DelaysExactIff | internal/engine/executor.go:554-563 | All of m configured retries wait as promised if and only if base·2^(m-1) < 2^63. |
| StepRunner.DefaultRetriesIff | internal/engine/executor.go:75-87 | With the default base and cap, if and only if m is at most 34. |
| StepRunner.DelayExactIff | internal/engine/executor.go:557-560 | One delay by itself is as promised if and only if its product stays below 2^63 or wraps around to at least the cap. |
| StepRunner.DefaultBackoff | internal/engine/executor.go:75-87 | With the default base and cap retries 1 to 34 wait as promised. |
| StepRunner.DefaultBackoffOverflows | internal/engine/executor.go:75-87 | With the default base the 35th delay is negative. |
| StepRunner.TotalSleep | internal/engine/executor.go:554-563 | The waits of one step never exceed maxRetries times the cap, for any base, overflow included. |
| StepRunner.RunStepOnHost | internal/engine/executor.go:500-658 | How often Run and Rollback are called and the delays, for every precheck and every sequence of attempts. A needed step ends Failed if and only if its last attempt returned an error and errors are not ignored, returned no error and the result Failed, or panicked after another attempt. |
| StepRunner.RetryContract | internal/engine/executor.go:553-626 | Without panics: at most maxRetries+1 runs, one if errors are ignored; every run but the last erred; no rollback before the end, so exactly one if and only if the last error counts. |
| StepRunner.RetriedIff | internal/engine/executor.go:553-626 | Which attempt is the last, panics included: every attempt before it erred or panicked and errors are not ignored; it has no error, or is the first, or the last one allowed. |
| StepRunner.HostFailsIff | internal/engine/executor.go:500-658 | A host whose step never panics fails if and only if the precheck does, or, ignoring errors, the first run has the result Failed without error, or, not ignoring them, every run allowed errs or the first that does not has that result. |
| StepRunner.PanicFailsIff | internal/engine/executor.go:565-654 | A step whose last run panicked ends Failed if and only if its first attempt did not panic. |
| StepRunner.PanicCountsAsSuccess | internal/engine/executor.go:565-654 | A step that panics at once is not retried, is rolled back once, and has not failed. |
| StepRunner.RunOnHosts | internal/engine/executor.go:447-468 | Whatever order the hosts finish in, every host has a result under its name, and every result is that of a host of the name. |
| StepRunner.RunNode | internal/engine/executor.go:405-499 | From the attempts on the hosts to the report: Success, Failed or Skipped; Skipped exactly if the condition is not met; Failed if it cannot be checked, otherwise only if the step fails on some host, and always then if the hosts have different names. Without panics and with different names: Failed if and only if the condition cannot be checked, or is met or absent and some host fails as HostFailsIff says. |
| ConnectionPools.Discarded | internal/connector/pool.go:179-204 | Get discards idle connections up to the first that is neither stale nor unhealthy. |
| ConnectionPools.HostConnectionPool.Get | internal/connector/pool.go:173-212 | The popping loop, the limit check and the reservation of a slot, with the connections it closed. |
| ConnectionPools.HostConnectionPool.DialFailed | internal/connector/pool.go:215-220 | A failed dial gives the slot back. |
| ConnectionPools.HostConnectionPool.Put | internal/connector/pool.go:233-264 | Does nothing to the pool without a connection, client or key; otherwise keeps a healthy connection if there is room, and else closes it and lowers the counter. |
| ConnectionPools.HostConnectionPool.CloseConnection | internal/connector/pool.go:266-286 | Does nothing without a client; otherwise drops the first idle entry of the client, if any, and lowers the counter. |
| ConnectionPools.HostConnectionPool.Scrub | internal/connector/pool.go:298-322 | Keeps exactly the fresh idle connections in order and lowers the counter by the rest. |
| ConnectionPools.FreshAt | internal/connector/pool.go:300-314 | A connection stays in the scrubbed list, at its place, if and only if it was used within the idle time and made within the age allowed. |
| ConnectionPools.WithoutFirstAt | internal/connector/pool.go:276-281 | CloseConnection takes exactly the first entry of the client out of the list. |
| ConnectionPools.PutThenGet | internal/connector/pool.go:179-263 | A connection put back healthy with room goes last in line; first in line, it is what the next Get answers if and only if it is healthy, at most the idle time has passed since the Put, and its age is not over. |
| PoolSystem.PutInv | internal/connector/pool.go:253-263 | Put keeps the account and lowers the counter exactly when it closes the connection. |
| PoolSystem.CloseInv | internal/connector/pool.go:276-285 | CloseConnection of a held connection keeps the account and finds nothing in idle to drop. |
| PoolSystem.ScrubInv | internal/connector/pool.go:298-322 | Scrubbing keeps the account. |
| PoolSystem.StepInv | internal/connector/pool.go:173-329 | Every critical section keeps the account and the separation of idle, held and closed connections. |
| PoolSystem.PoolConservation | internal/connector/pool.go:173-329 | Over every interleaving: the counter equals idle, held and dialing connections, is never negative and never above the limit; idle stays within its limit; no connection is in two places or idle after being closed. |
| PoolSystem.GetAnswers | internal/connector/pool.go:173-212 | Get reuses an idle connection if and only if one is healthy and within its idle time and age; otherwise it dials if and only if the connections checked out or being dialed are fewer than the limit. |
| PoolSystem.AgeIsKept | internal/connector/pool.go:222-263 | No section changes when a connection was made: it was there before with the same age, or has just been dialed. |
| PoolSystem.ClampsNeverFire | internal/connector/pool.go:255-321 | The clamps at zero never change the counter. |
| PoolSystem.GiveUpKeepsAccountIff | internal/connector/pool.go:266-286 | For any connection, held or not: after CloseConnection the counter stands for the connections left if and only if it was checked out or idle, or the counter was zero. |
| PoolSystem.PutBackKeepsAccountIff | internal/connector/pool.go:233-264 | For any connection, held or not: after Put, if and only if it was checked out, or is closed and the counter was zero. |
| PoolSystem.DoubleCloseUndercounts | internal/connector/pool.go:266-286 | While another connection is checked out, giving one up twice makes the counter smaller than the connections it stands for. |
| PoolSystem.DoubleCloseHappens | internal/connector/pool.go:173-286 | A run from the empty pool after which a second CloseConnection brings the counter to zero with a connection checked out. |
| Connectors.SSHConnector.Connect | internal/connector/ssh.go:43-72 | Takes the pool's connection if it answers, dials directly otherwise, and fails only if that fails too; every field is then as the answer says, and a failure leaves the connector as connected as it was. |
| Connectors.SSHConnector.Close | internal/connector/ssh.go:86-132 | Hands back the pooled connection in use, if any, and forgets it. |
| Connectors.ConnectedIff | internal/connector/ssh.go:43-132 | After any calls of Connect and Close the connector is marked connected if and only if some Connect has succeeded since the last Close. |
| Connectors.TakenAndReturned | internal/connector/ssh.go:43-132 | For every sequence of calls without a reconnect over a held connection, the connections handed back are those taken, in order, except the one still held. |
| Connectors.Balance | internal/connector/ssh.go:43-132 | In general the connections taken are those handed back, held, and forgotten by reconnecting. |
| Connectors.AllReturnedIff | internal/connector/ssh.go:43-132 | After a final Close as many connections were handed back as taken if and only if no reconnect over a held connection happened. |
| Connectors.ReconnectForgets | internal/connector/ssh.go:43-132 | Connecting twice takes two connections, and closing hands back the second only. |
| PoolUsers.PoolPartAllowed | internal/connector/ssh.go:43-132 | Whatever a connector does next, the pool section it enters is one the pool allows: Put always names a connection that is checked out. |
| PoolUsers.MoveInv | internal/connector/ssh.go:43-132 | Every move, reconnects included, keeps the connections checked out in one-to-one correspondence with the connectors that hold them, apart from those lost by reconnecting. |
| PoolUsers.ConnectorsShareSafely | internal/connector/ssh.go:43-132 | For any number of connectors, connecting again as they please, and any interleaving with the scrubber: no two hold the same connection, and the pool's counter is the idle connections, the connectors holding or dialing one, and the reconnects so far, within the limit. |
| PoolUsers.ReconnectsExhaust | internal/connector/pool.go:206-209 | After as many reconnects as the key has slots, the pool refuses every later Get. |
| PoolUsers.ConnectIsMoves | internal/connector/ssh.go:43-72 | A Connect call, whatever the connector held before, leaves its fields as the move that answers it says. |
| PoolUsers.LosesWhatIsHeld | internal/connector/ssh.go:43-72 | A Connect call loses exactly the connection that a Close would have handed back. |
| PoolUsers.CloseIsMove | internal/connector/ssh.go:86-132 | A Close call hands back exactly the connection that the move puts. |
| PoolRegistry.StepInv | internal/connector/pool.go:146-171 | Neither path ever replaces a registered pool. |
| PoolRegistry.TwoLooksSuffice | internal/connector/pool.go:146-171 | A caller whose key is registered has its pool after the first look, without one being made; any other after the second. |
| PoolRegistry.OnePoolPerKey | internal/connector/pool.go:146-171 | Over every interleaving of the two paths, two callers get the same pool if and only if they asked for the same key. |
| PoolRegistry.PoolNeverReplaced | internal/connector/pool.go:146-171 | Also across time: an earlier and a later caller of one key get the same pool. |
| TieredCache.GetIsOverlay | internal/cache/generic_cache.go:28-43 | Looking through the tiers while evicting answers what the overlay of the unexpired entries says. |
| TieredCache.GenericCache.Get | internal/cache/generic_cache.go:28-43 | On a chain of cache objects Get evicts and answers as the function on the tiers. |
| TieredCache.GenericCache.SetWithTTL | internal/cache/generic_cache.go:49-61 | Stores the value and changes no other key; the entry is expired at a time if and only if the lifetime given, or the default if 0 is given, is positive and that time lies beyond its end. |
| TieredCache.GenericCache.Keys | internal/cache/generic_cache.go:72-84 | Lists the keys of the unexpired entries of this tier, each once. |
| TieredCache.GenericCache.Count | internal/cache/generic_cache.go:86-96 | Counts the unexpired entries of this tier. |
| TieredCache.GenericCache.DeleteExpired | internal/cache/generic_cache.go:251-259 | Removes the expired entries and no other. |
| TieredCache.GenericCache.GetOrSet | internal/cache/generic_cache.go:102-123 | A stored entry, expired or not, is answered and kept; an absent key gets the value, with the tier's default lifetime. |
| TieredCache.GetOrSetIff | internal/cache/generic_cache.go:102-123 | Answers the live value or stores the new one if and only if the tier holds no expired entry under the key. |
| TieredCache.ExpiredIsAnswered | internal/cache/generic_cache.go:102-123 | An entry that expired at time 5 is what GetOrSet answers at time 6. |
| CacheHistory.StepSimulates | internal/cache/generic_cache.go:28-100 | Caches with the same unexpired entries answer alike and stay alike. |
| CacheHistory.GetKeepsLive | internal/cache/generic_cache.go:35 | Get's own evictions remove expired entries only. |
| CacheHistory.TraceSimulates | internal/cache/generic_cache.go:28-259 | Over any history with a non-decreasing clock the evicting caches show what the never-evicting reference shows. |
| CacheHistory.EvictionInvisible | internal/cache/generic_cache.go:28-259 | The same after removing all janitor runs from the reference's history: evictions at any tier and time change no answer of Get, Has, Keys, Count or Range. |
| CacheHistory.SetThenGet | internal/cache/generic_cache.go:28-61 | After a Set, whatever happens to other keys, other tiers or by lookups and the janitor, the tier answers the value at a later time if and only if the lifetime given, or the default if 0 is given, is not positive or has not ended; otherwise it answers what the farther tiers show. (An end at the instant 0 of the clock counts as none, as in the code.) |
| CacheHistory.GetOrSetThenGet | internal/cache/generic_cache.go:28-123 | The same of GetOrSet on an absent key, with the default lifetime. |
| CacheHistory.RemovedThenGet | internal/cache/generic_cache.go:63-100 | After Delete or Flush the tier answers what the farther tiers show, until the key is set there again. |
| CacheHistory.OnlyTouchesShow | internal/cache/generic_cache.go:28-100 | What a tier answers for a key is changed only by operations on that key, or a Flush, there or in a farther tier. |
| CacheHistory.ReadersAgree | internal/cache/generic_cache.go:28-214 | Has says whether Get finds something; Keys and Range hold what Get finds in the tier alone, and Count their number. |
| CounterCas.StepInv | internal/cache/generic_cache.go:216-241 | Every load, load-or-store and compare-and-swap keeps the entry equal to the running total. |
| CounterCas.SwapSucceeds | internal/cache/generic_cache.go:233-238 | A swap that succeeds adds to the current total, even if the entry changed and changed back. |
| CounterCas.NoLostUpdate | internal/cache/generic_cache.go:216-249 | For any number of threads and any interleaving no thread forgets its delta, the entry is the initial value plus the deltas of the threads that are through, and each of those returned the total at its own turn, in 64-bit arithmetic. |
| CounterCas.EveryIncrementCounts | internal/cache/generic_cache.go:216-249 | Once every thread is through, the entry is the initial number, or zero, plus the sum of what the threads were asked to add, in 64-bit arithmetic. |
| CounterCas.CourseKeepsDeltas | internal/cache/generic_cache.go:217-240 | No step, a failed swap included, changes what a thread is to add. |
| CounterCas.SwapFailsOnlyAfterAnother | internal/cache/generic_cache.go:237 | A swap fails only if another operation completed since the thread read the entry. |
| HostRange.ParseNumeral | internal/config/helpers.go:195-215 | Reading back a printed number gives the number, padded or not. |
| HostRange.NumeralWidth | internal/config/helpers.go:209-212 | Padding fixes the width while the number fits. |
| HostRange.NumeralParse | internal/config/helpers.go:195-215 | Printing what was read gives the same text. |
| HostRange.ReadsDecimal | internal/config/helpers.go:195-204 | Numerals are read in base ten. |
| HostRange.FindMatchExact | internal/config/helpers.go:180-193 | The matcher finds m if and only if m is the split of the pattern with the longest prefix. |
| HostRange.FoundMeans | internal/config/helpers.go:180-193 | What is found is two numbers in brackets with a colon between, neither empty, and there is no newline. |
| HostRange.BlankIff | internal/config/helpers.go:184-187 | A pattern is blank if and only if all its characters are white space, by code point. |
| HostRange.LoopsForeverIff | internal/config/helpers.go:214-216 | The loop over a range never ends if and only if the range ends at 2^63-1, in 64-bit arithmetic. |
| HostRange.LargestRangeIsEndless | internal/config/helpers.go:179-216 | The bare range from the largest integer to itself is matched, and its loop never ends. |
| HostRange.ExpandHostRange | internal/config/helpers.go:179-223 | For every pattern, exactly: which error it has, whether the loop never ends, or its names; a range [a:b] gives its b-a+1 names in order. |
| HostRange.HostNameRoundTrip | internal/config/helpers.go:209-216 | Stripping prefix and suffix from a name and reading the numeral gives its number, and a padded start fixes the width. |
| HostRange.HostNamesDistinct | internal/config/helpers.go:214-216 | The names of a range are distinct. |
| HostRange.FirstNameSpelledAlike | internal/config/helpers.go:209-216 | The first name spells the start as the pattern does. |
| HostRange.WrittenRangeIsFound | internal/config/helpers.go:180-193 | A written range is read back as written, unless its suffix holds a later one. |
| HostRange.ExpansionUnique | internal/config/helpers.go:179-223 | A pattern stands for one list of names. |
| HostRange.NamesInOrder | internal/config/helpers.go:164-177 | The names of the patterns of a list follow one another in the order of the patterns. |
| HostRange.ExpandRoleGroupHosts | internal/config/helpers.go:164-177 | A list expands exactly if all its patterns do, and then to their names in order; otherwise it fails as the first pattern that does not expand. |
| RoleIndex.UniqueKeepsFirsts | internal/config/helpers.go:126-140 | Dropping duplicates keeps every non-empty name once, in order of first occurrence. |
| RoleIndex.UniqueRoles | internal/config/helpers.go:126-140 | The loop computes that list. |
| RoleIndex.AppendRoles | internal/config/helpers.go:98-102 | Every name's list grows by one copy of the role for each time the group lists it. |
| RoleIndex.UniqueListed | internal/config/helpers.go:97-117 | Without duplicates, the role map's entry for a host is the list of the groups that name it. |
| RoleIndex.RolesAgree | internal/config/helpers.go:104-117 | That list contains a role exactly when the group names the host, once, in the fixed group order. |
| RoleIndex.RolesInOrder | internal/config/helpers.go:104-117 | For a name it is the roles of the groups that list it: master, worker, etcd, loadbalancer, storage, registry, in this order. |
| RoleIndex.AgreementIsUnique | internal/config/helpers.go:104-117 | Membership and order determine the list. |
| RoleIndex.AppliedIsUnique | internal/config/helpers.go:111-121 | There is one way to apply the groups to a host. |
| RoleIndex.ApplyRoleGroupsToHosts | internal/config/helpers.go:92-124 | In place, every host that some group lists ends with role master if and only if the master group lists its name, and so for worker, etcd, loadbalancer, storage and registry, in this order, and a table of exactly those; hosts in no group, and all hosts without groups, are untouched. |
| RoleIndex.ValidateRoleGroupHosts | internal/config/helpers.go:142-162 | Passes exactly when every name in the six groups is the name of a host, and otherwise names one that is not. |
| RoleIndex.MembershipsRealised | internal/config/helpers.go:92-162 | With the validation passed, for a name that some group lists: a host of the name has the role if and only if the role's group lists the name. |

## Left out

- Time stamps, messages, outputs, host states, logging, JSON encoding and context cancellation do not appear; a clock is
  a parameter, and a step's timeout or a cancelled sibling host is one of the results a step may return.
- The dry run, which marks every node Skipped without running it.
- The coordinator's iteration is one atomic step, as is each receive or send on a channel; the shared memory of a
  running step is not modelled.
- Executor.Coordinator.Run: takes a node's outcome as a function of the node, which is no restriction within one run,
  where DispatchOnceInOrder has each node dispatched at most once; SchedulerTheorems and CheckpointSafety allow any
  outcome at any time.
- The checkpoint of a different graph: restored nodes are nodes of the graph, as HistoryJustified shows for files the
  executor itself wrote for this graph. A file whose node states are missing altogether is not modelled.
- The rewriting of the file by two executors at the same time.
- Which operations on the checkpoint file fail is an input of `Execute`, one answer for the save after each node.
- `dependents` is a total map; a missing key in the source is an empty list here.
- The nil `Nodes` map in `Validate`.
- `AddNode`, `AddDependency` and `MergeFragment` of fragments repeat those of the graph and are not modelled twice.
- ExecutionGraphs.ExecutionGraph.LinkFragments: for a node object stored under two IDs, which the planners do not build,
  says only that edges are kept and that new ones come from the sources.
- PipelinePlanner.Plan: takes each module's fragment as empty or planned, with its own node objects; how a module plans
  its tasks is not modelled.
- A crash of the machine: the source does not sync a file before it renames it, so what CrashHistory proves is for a
  crash of the process.
- Paths are those of Unix.
- The pool's health request answers the same for one connection during one critical section, and each section reads the
  clock once. Dialing, sessions, SFTP and file copies are network effects and left out.
- `generatePoolKey`: a key is an opaque value, and the pool of one key is modelled at a time.
- `Shutdown` of the pool, which resets the counters while connections may be out.
- `IsConnected`, which clears the connector's flag when a keepalive fails.
- The closing of a direct or replaced client, which no pool counts.
- `GetOrSet` and the counter do not take part in the cache histories; both ignore expiry, as their own contracts say.
- Cache operations of one history are taken one at a time; a write between another caller's look at an expired entry and
  its eviction is not modelled. Expiry times are unbounded integers.
- The typed getters of the cache.
- What a loop that never ends costs: on an endless range the source keeps appending names until memory runs out.
- The regular expression is modelled by its meaning, on characters rather than bytes; widths above the limit of the
  formatting library are not modelled.
- Sorting is modelled by insertion into a sorted list.
- StepRunner.RunNode: for two hosts of one node with the same name, whose results the source keeps under one key, says
  only that a failed node has a host that failed; which result stays depends on the order.
- Step bodies, the runner, assets, the command line and the rest of the configuration.
