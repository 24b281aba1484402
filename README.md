# Idle-host reclamation and the distro task-queue store

A Dafny model of two parts of Evergreen, a continuous-integration system.

1. The idle-host termination job (`units/host_monitoring_idle_termination.go`). One pass of `Run` does the following:
   - takes the idle ephemeral hosts of every distro, oldest first;
   - looks up the distros;
   - decommissions the hosts of distros that were not found;
   - reads the scheduler configuration.

   Then, per distro, it computes an evaluation budget and walks the hosts. The first budget hosts are always evaluated; after those, only hosts with an outdated AMI are. Each evaluated host goes through the exemption chain. For a host that survives, the job resolves an idle threshold and takes the first termination reason that applies. Every host given a reason is counted, its id is recorded, and a termination is enqueued. Errors are collected on the job.
2. The distro task-queue store, as the tests in `model/task_queue_test.go` pin it down. Each distro has one ordered list of items and one summary. A queue is:
   - saved wholesale;
   - loaded back exactly as saved;
   - emptied per distro;
   - shortened by dequeuing a task id, which removes every occurrence.

   A detector reports the task ids that appear in more than one distinct distro's queue.

Files:
- `wrappers.dfy` holds the `Option` and `Result` types.
- `idle_host_policy.dfy` (module `IdleHostPolicy`) holds the per-host decision: the exemptions, the task-group assignment, the idle information and the termination reason. It is all pure functions, with lemmas.
- `idle_host_job.dfy` (module `IdleHostJobs`) holds the job itself:
  - the class `IdleHostJob`, whose fields `terminated`, `terminatedHosts` and `errors` are updated by `CheckAndTerminateHost`, `AddError` and `Run`;
  - the loops of the pass as methods;
  - the pure functions (`Prepare`, `HostsToEvaluate`, `CycleTerminatedIds`, `CycleErrors`) that specify what a pass records.
- `task_queue.dfy` (module `TaskQueues`) holds:
  - the store, as a class over a `map` from distro id to stored queue;
  - the in-memory `TaskQueue` class;
  - the pure functions `Saved`, `Dequeued`, `Cleared` and `RemoveTask` that specify the store's methods;
  - the duplicate detector as a pure grouping, checked against an independent set-based reference (`DistrosContaining`).

Durations are Go `time.Duration` values, modelled as `int` nanoseconds.

Several inputs of the idle job are abstract: the database queries, the cloud manager, the task store, the enqueueing of termination jobs and the clock. Each is given as a value or a function parameter:
- `Collaborators` holds the task lookups, the billing lookup and the maximum teardown threshold;
- `Environment` holds the host and distro queries, decommissioning, the scheduler configuration and the enqueueing of termination jobs;
- the time since the task group's teardown started is a field of `Host`.

Two behaviours of the code are worth stating, because they are easy to misread:
- The waiting-for-agent exemption (lines 304-318) holds when the communication time OR the idle time is under ten minutes. It does not need both. See `AgentGraceNeedsOnlyOneDuration`.
- The idle-time rule (lines 275-277) has no teardown guard. The comment at lines 273-274 says a host's idle time reads zero while it runs its teardown group, and under that condition `TearingDownWithZeroIdleTime` shows that only the teardown rule can fire. The model does not enforce that condition: `idleTime` and `isTearingDown` are independent fields of `Host`. So a tearing-down host whose idle time is nonzero and at its threshold, and that the AMI rule does not catch first, gets the idle-time reason. See `TearingDownWithIdleTimeHitsIdleRule`.

## Model

| member | source | states |
|---|---|---|
| IdleHostPolicy.NotExemptIff | units/host_monitoring_idle_termination.go:287-338 | `CheckTerminationExemptions`: a host is open to termination iff it is ephemeral, outside the agent grace window, and its manager reports at most five minutes until payment; a non-exempt host reports no error |
| IdleHostPolicy.ExemptionErrors | units/host_monitoring_idle_termination.go:288-328 | `CheckTerminationExemptions`: a non-ephemeral host is exempt with an error; an exemption carries an error exactly when the host is not ephemeral, or when it is outside the grace window and the manager options or the manager could not be obtained |
| IdleHostPolicy.AgentGraceNeedsOnlyOneDuration | units/host_monitoring_idle_termination.go:304-318 | `CheckTerminationExemptions`: an ephemeral host waiting for its agent is exempt without error when either its communication time or its idle time is under ten minutes |
| IdleHostPolicy.AssignedByRunningTask | units/host_monitoring_idle_termination.go:228-237 | `IsAssignedSingleHostTaskGroup`: with a running group task, the running task's single-host flag decides; a failed or empty lookup is an error |
| IdleHostPolicy.AssignedByLastTask | units/host_monitoring_idle_termination.go:239-252 | `IsAssignedSingleHostTaskGroup`: between group tasks, the host is assigned iff the last task is in a single-host group and succeeded; a failed or empty lookup is an error |
| IdleHostPolicy.NotAssignedOtherwise | units/host_monitoring_idle_termination.go:227-255 | `IsAssignedSingleHostTaskGroup`: in every other case the host is not assigned, whatever the task store holds |
| IdleHostPolicy.IdleInfoFromHost | units/host_monitoring_idle_termination.go:192-223 | `GetIdleInfo`: the idle information fails exactly when the assignment lookup fails, and otherwise carries the host's durations, teardown flag, AMI check and assignment |
| IdleHostPolicy.BaseThresholdFallback | units/host_monitoring_idle_termination.go:193-196 | `BaseIdleThreshold`, used by `GetIdleInfo`: the distro's acceptable idle time is the base threshold unless it is zero, in which case the scheduler's seconds are used |
| IdleHostPolicy.SingleHostGroupThresholdIsFixed | units/host_monitoring_idle_termination.go:202-209 | `GetIdleInfo`: a host assigned to a single-host task group gets exactly five minutes, whatever the distro and scheduler say |
| IdleHostPolicy.TaskGroupThreshold | units/host_monitoring_idle_termination.go:208-212 | `GetIdleInfo`: otherwise a running task group doubles the base threshold, and no running group leaves it unchanged |
| IdleHostPolicy.ReasonPrecedence | units/host_monitoring_idle_termination.go:260-283 | `GetTerminationReason`: each reason is returned exactly when its rule holds and no earlier rule does; no reason exactly when no rule holds |
| IdleHostPolicy.OutdatedAMIIgnoresThresholds | units/host_monitoring_idle_termination.go:261-269 | `GetTerminationReason`: an idle, outdated host not holding a single-host group gets the AMI reason whatever its thresholds and communication |
| IdleHostPolicy.SingleHostGroupNotRetiredForAMI | units/host_monitoring_idle_termination.go:261 | `GetTerminationReason`: a host in a single-host task group never gets the AMI reason |
| IdleHostPolicy.TearingDownWithZeroIdleTime | units/host_monitoring_idle_termination.go:270-280 | `GetTerminationReason`: a tearing-down host with zero idle time gets the teardown reason iff the teardown has run past the maximum, and no other reason |
| IdleHostPolicy.TearingDownWithIdleTimeHitsIdleRule | units/host_monitoring_idle_termination.go:273-277 | `GetTerminationReason`: a host tearing down its task group whose idle time is nonzero and at least its threshold, and which the AMI rule does not catch first, gets the idle-time reason |
| IdleHostPolicy.TerminateNeedsEveryStep | units/host_monitoring_idle_termination.go:158-177 | `Decide` (the decision `checkAndTerminateHost` acts on): a host is marked for termination iff no exemption applies, its idle information is obtained and it yields a reason; such a host is ephemeral, out of the grace window and within five minutes of payment |
| IdleHostPolicy.IdleHostIsTerminated | units/host_monitoring_idle_termination.go:158-177 | `Decide`: a non-exempt host not in any task group whose idle time is positive and at least the base threshold is terminated |
| IdleHostJobs.GetMinNumHostsToEvaluate | units/host_monitoring_idle_termination.go:143-156 | the budget is zero when running hosts do not exceed the minimum, and otherwise the smaller of the idle count and the surplus; always within 0 and the idle count |
| IdleHostJobs.BudgetExamples | units/host_monitoring_idle_termination.go:143-156 | `GetMinNumHostsToEvaluate`: a surplus of two over four idle hosts gives two; being under the minimum gives zero |
| IdleHostJobs.OutdatedOnly | units/host_monitoring_idle_termination.go:130-137 | the hosts kept past the budget are exactly those with an outdated AMI |
| IdleHostJobs.OutdatedOnlyConcat | units/host_monitoring_idle_termination.go:130-137 | `OutdatedOnly`: filtering for outdated hosts distributes over concatenation and keeps the order |
| IdleHostJobs.HostsToEvaluateShape | units/host_monitoring_idle_termination.go:129-139 | `HostsToEvaluate`: the evaluated hosts are the first budget hosts in order, followed by the outdated-AMI filter of the rest, which holds exactly the outdated ones among the rest |
| IdleHostJobs.HostsToEvaluateExtremes | units/host_monitoring_idle_termination.go:129-139 | `HostsToEvaluate`: a budget of every idle host evaluates them all; a zero budget evaluates only the outdated ones |
| IdleHostJobs.TerminatedIdsExact | units/host_monitoring_idle_termination.go:169-171 | `TerminatedIds`: every recorded id is that of an evaluated host decided for termination, and every such host's id is recorded |
| IdleHostJobs.ExemptHostsNotTerminated | units/host_monitoring_idle_termination.go:159-162 | `TerminatedIds`: an exempt host's id is never recorded |
| IdleHostJobs.SetDifference | units/host_monitoring_idle_termination.go:97 | the missing ids are exactly the ids to find that were not found |
| IdleHostJobs.MissingDistrosIffCountShort | units/host_monitoring_idle_termination.go:92-97 | `SetDifference` and `Prepare`: with distinct ids that include the found ones, the count comparison detects exactly the passes where some distro is missing |
| IdleHostJobs.DistrosByIdLastWins | units/host_monitoring_idle_termination.go:112-116 | `DistrosById`: the map's keys are exactly the found ids, each mapped to the last found distro with that id |
| IdleHostJobs.LookupFailuresAbort | units/host_monitoring_idle_termination.go:76-122 | `Prepare`: a failing idle-host or distro query stops the pass with that one wrapped error; a pass that proceeds uses the scheduler configuration read |
| IdleHostJobs.CycleTerminatedIdsSound | units/host_monitoring_idle_termination.go:124-140 | `CycleTerminatedIds`: every id a pass records belongs to a host evaluated in some distro's group and decided for termination |
| IdleHostJobs.CollectDistroIdsToFind | units/host_monitoring_idle_termination.go:82-85 | the loop yields the snapshot's distro ids in order |
| IdleHostJobs.CollectDistroIdsFound | units/host_monitoring_idle_termination.go:93-96 | the loop yields the found distros' ids in order |
| IdleHostJobs.BuildDistrosMap | units/host_monitoring_idle_termination.go:112-116 | the loop yields the id-keyed map of found distros, in which the last duplicate wins |
| IdleHostJobs.IdleHostJob.constructor | units/host_monitoring_idle_termination.go:45-55 | a new job has terminated nothing and no errors |
| IdleHostJobs.IdleHostJob.AddError | units/host_monitoring_idle_termination.go:103-105 | a nil error adds nothing; any other error is appended; the counters are untouched |
| IdleHostJobs.IdleHostJob.CheckAndTerminateHost | units/host_monitoring_idle_termination.go:158-177 | the counter grows by one and the id is appended iff the decision is to terminate, and nothing changes otherwise; the error returned is the exemption's, the wrapped idle-info failure or the enqueue result |
| IdleHostJobs.IdleHostJob.EvaluateHost | units/host_monitoring_idle_termination.go:137-138 | one evaluated host adds its id when terminated and its error when it has one |
| IdleHostJobs.IdleHostJob.EvaluateDistroHosts | units/host_monitoring_idle_termination.go:124-140 | one distro's walk evaluates exactly the hosts selected by the budget and AMI rule, in order, and records their ids and errors; the counter equals the recorded ids |
| IdleHostJobs.IdleHostJob.EvaluateAllDistros | units/host_monitoring_idle_termination.go:124-140 | the distros are evaluated in snapshot order, each against its found distro or the zero distro |
| IdleHostJobs.IdleHostJob.DecommissionHosts | units/host_monitoring_idle_termination.go:103-105 | every failed decommission adds its wrapped error, in host order |
| IdleHostJobs.IdleHostJob.Run | units/host_monitoring_idle_termination.go:64-141 | a job that already has errors does nothing; otherwise a failing step stops the pass with its errors, and a pass that proceeds records exactly the cycle's terminated ids and errors, keeping the counter equal to the recorded ids |
| TaskQueues.RemoveTask | model/task_queue_test.go:52-96 | the dequeued queue holds exactly the items with another id, and is no longer |
| TaskQueues.RemoveTaskConcat | model/task_queue_test.go:52-73 | `RemoveTask`: dequeuing distributes over concatenation, so the survivors keep their relative order |
| TaskQueues.RemoveTaskMultiset | model/task_queue_test.go:52-95 | `RemoveTask`: every item with another id keeps its multiplicity, and no item with the id remains |
| TaskQueues.RemoveTaskLength | model/task_queue_test.go:75-95 | `RemoveTask`: the queue shrinks by exactly the number of occurrences of the id |
| TaskQueues.RemoveAbsentTask | model/task_queue_test.go:29-40 | `RemoveTask`: dequeuing an absent id leaves the queue unchanged |
| TaskQueues.RemoveTaskIdempotent | model/task_queue_test.go:82-83 | `RemoveTask`: a second dequeue of the same id changes nothing |
| TaskQueues.RemoveTaskCommutes | model/task_queue_test.go:75-80 | `RemoveTask`: two dequeues give the same queue in either order |
| TaskQueues.DequeueExamples | model/task_queue_test.go:29-95 | `RemoveTask`: an empty queue stays empty, an absent id changes nothing, `t2` from `[t1,t2,t3]` gives `[t1,t3]`, and `t1` from `[t1,t2,t1]` gives `[t2]` |
| TaskQueues.LoadAfterSave | model/task_queue_test.go:141-184 | `Saved`, `Loaded` and `QueueInfo`: a saved queue loads back with the same items in order, their dependencies and the summary; other distros are untouched |
| TaskQueues.SummaryIsStoredVerbatim | model/task_queue_test.go:186-221 | `Saved` and `QueueInfo`: a summary of length 8 saved beside three items comes back as given |
| TaskQueues.ClearTouchesOneDistro | model/task_queue_test.go:99-139 | `Cleared`: clearing empties exactly the distro's items and keeps its summary; every other distro's queue is unchanged |
| TaskQueues.DequeueAbsentIsNoop | model/task_queue_test.go:34-40 | `Dequeued`: dequeuing an id absent from the stored queue leaves the store unchanged |
| TaskQueues.DequeueIdempotent | model/task_queue_test.go:82-83 | `Dequeued`: a repeated dequeue leaves the store as one dequeue did |
| TaskQueues.DequeueTouchesOneQueue | model/task_queue_test.go:52-73 | `Dequeued`: dequeuing changes only the distro's items, not its summary nor any other distro |
| TaskQueues.DuplicatesExact | model/task_queue_test.go:223-287 | `FindDuplicateEnqueuedTasks`: a task is reported iff at least two distinct distros' queues hold it, and it is reported with exactly those distros |
| TaskQueues.SingleQueueHasNoDuplicates | model/task_queue_test.go:258-269 | `FindDuplicateEnqueuedTasks`: a store with one queue, repeats or empty included, reports nothing |
| TaskQueues.DisjointQueuesHaveNoDuplicates | model/task_queue_test.go:270-276 | `FindDuplicateEnqueuedTasks`: queues that share no id report nothing |
| TaskQueues.EmptyQueueContributesNothing | model/task_queue_test.go:264-269 | `FindDuplicateEnqueuedTasks`: an empty queue changes no report |
| TaskQueues.DuplicatesAcrossThreeQueues | model/task_queue_test.go:234-257 | `FindDuplicateEnqueuedTasks`: the three-queue store reports exactly task1 with {d1, d2} and task3 with {d1, d2, d3} |
| TaskQueues.TaskQueueStore.ClearTaskQueue | model/task_queue_test.go:132-138 | the store's new contents are its old ones with the distro's items emptied |
| TaskQueues.TaskQueueStore.LoadTaskQueue | model/task_queue_test.go:69-73 | a fresh queue holding the distro's stored items and summary, or null when the distro has none |
| TaskQueues.TaskQueueStore.GetDistroQueueInfo | model/task_queue_test.go:214-220 | the distro's stored summary, or none |
| TaskQueues.TaskQueue.NewTaskQueue | model/task_queue_test.go:125-130 | the new queue holds the distro, items and summary given |
| TaskQueues.TaskQueue.Save | model/task_queue_test.go:30-37 | the store's entry for the distro becomes this queue's items and summary |
| TaskQueues.TaskQueue.DequeueTask | model/task_queue_test.go:52-73 | the id is removed in memory and in the store's entry for the distro, the summary is kept, and an in-memory queue equal to the stored one stays equal |

## Left out

- Logging (`grip`), the amboy job registry, `init`, `makeIdleHostJob`'s job type and `NewIdleHostTerminationJob`'s id formatting are left out: they decide nothing the job computes.
- The `j.env == nil` fallback to the global environment and `MarkComplete` are left out, because the environment is an input here.
- The database queries, the cloud manager, decommissioning and the enqueueing of termination jobs are inputs (`Environment`, `Collaborators`), not implementations.
- `time.Since` and the host's time accessors are inputs: elapsed durations are fields of `Host`.
- `evergreen.MaxTeardownGroupThreshold`, `Task.IsPartOfSingleHostTaskGroup` and `Distro.GetDefaultAMI` are defined in files that are not part of this model. The threshold is an input, the task flag is a field, and the default AMI is a field of `Distro`. The zero distro's default AMI is taken to be empty.
- `evergreen.TaskSucceeded` is not part of this model; its value is taken to be `"success"`.
- Termination reasons are an enumeration, not the formatted message text.
- IdleHostPolicy.GetIdleInfo: does not model Go's signed 64-bit overflow, either when the scheduler's seconds are scaled to nanoseconds or when the threshold is doubled. Durations are unbounded integers.
- IdleHostJobs.IdleHostJob.Run: a job's pre-existing errors come from the job framework, so they are modelled only as a non-empty error list. The per-host errors are kept in full.
- TaskQueues.TaskQueueStore.ClearTaskQueue: that clearing keeps the distro's stored summary is an assumption. The tests assert only that the distro's items are emptied and the other distros' items keep their length.
- TaskQueues.TaskQueue.DequeueTask: three behaviours are assumptions the tests do not assert. Dequeuing keeps the stored summary. The id is removed from the stored queue even when the in-memory queue does not hold it. The stored queue drops every item with the id; the tests assert that only for the in-memory queue.
- The task-queue store's implementation file is not part of this model. The store is modelled from what its tests assert. Dequeue and clear on a distro with no stored queue are taken to change nothing, a case no test covers.
- `FindDistroTaskQueue` is modelled by `LoadTaskQueue`: the tests observe the same result from both.
- `FindDuplicateEnqueuedTasks` reports a map from task id to a set of distro ids, not a list of records with a list of distro ids; the tests compare those lists as sets. The underlying database aggregation is modelled as a grouping on sets.
- Store failures, the database's error results and concurrent writers are left out: the store is sequential and never fails.
