# Job-lock coordination of scale-spring-batch, in Dafny

This project models how the application spreads Spring Batch jobs over
several running instances. It uses a DynamoDB lock per job name. The
model follows the four classes of `com.foo.config`:

- **DynamoDBJobCoordinator** becomes `Coordination.JobCoordinator`.
  - It is a class whose `held` field is the map from job name to the
    lock item this instance holds.
  - `RegisterJob` records an acquired lock and `UnregisterJob` drops one.
  - `CanContinue` is the read-only check that a job's lock is present and
    its lease has not run out.
  - `Replay` runs a history of calls, which lets lemmas say how validity
    evolves over time.
- **SyncScheduler** becomes `Scheduling.SyncScheduler`.
  - `AcquireLocks` is the greedy pass. It stops once `tokens` locks have
    been won.
  - `Initialize` makes the first pass, then up to two retry passes over the
    jobs not yet won. Each retry pass raises `tokens` by its own count.
    Finally it registers one 30-second fixed-delay task per won job.
  - Both methods are proved against the functions `AcquirePass` and
    `Assign`. The scheduling properties are lemmas about those functions.
- **JobSyncRunnable** becomes `JobSync.JobSyncRunnable`. This is the
  periodic per-job tick:
  - it revalidates the lock;
  - it skips the tick while the newest instance of the job still has an
    execution that has not ended;
  - otherwise it starts the next instance.
  - If the lock was lost and is registered again, it waits up to twice the
    lease, in 2-second steps, for runs a former holder may still have in
    flight. If the newest instance still runs after that, every execution
    of the job that has started and not ended is forced to STOPPED.
  - `GetTheLastJobInstance` and `IsLastJobExecutionStillRunning` are pure
    queries. The tick, the wait and the clean-up are methods that change an
    `Executions.ExecStore`.
- **ChunkListener** becomes `Chunks.BeforeChunk`. It refuses a chunk, as
  the listener's `IllegalStateException` does, exactly when the job's lock
  is no longer valid.
  `Chunks.AfterChunk` and `Chunks.AfterChunkError` are empty methods, as
  their counterparts in the listener are. They have no contract and no
  table row.

The collaborators appear as inputs:

- **The lock client.** Each `tryAcquireLock` answer is an `Acquisition`
  value: interrupted, not acquired, or acquired with a `LockItem`. During
  start-up the scheduler reads these answers from a `LockOracle` indexed
  by pass and job.
- **Lock expiry.** The client's rule is kept: an item has expired once more
  than its lease duration (10 s) has passed since it was looked up.
- **Spring Batch.** The application is built on Spring Batch 4.x (it uses
  `JobBuilderFactory` and `DefaultBatchConfigurer`). Its repository is the
  JDBC one: `JobRepositoryFactoryBean` over a `DataSource`
  (BatchConfiguration.java:117-119). The library rules below are those of
  that version.
  - The explorer, operator and repository are the in-memory `ExecStore`.
    It lists instances newest first.
  - `startNextInstance` is asynchronous: the execution it creates is
    STARTING, with neither a start time nor an end time. The launcher's own
    thread sets the start time later.
  - `JobExecution.isRunning()` means "no end time yet" (in 4.x it tests
    `endTime == null`).
  - `findRunningJobExecutions` returns the executions of the job with a
    start time and no end time. In 4.x `SimpleJobExplorer` delegates it to
    `JdbcJobExecutionDao`, whose query selects `START_TIME is not NULL and
    END_TIME is NULL`.
  - `BatchStatus.isRunning()` means STARTING or STARTED.
- **Time.** The clock is a parameter `now`. Each 2-second sleep of the grace
  wait advances the store to the next time. Any execution a former holder
  still runs ends on its own at the time `completesAt` gives for it.

## Model

| member | source | states |
|---|---|---|
| Coordination.JobCoordinator.constructor | src/main/java/com/foo/config/DynamoDBJobCoordinator.java:24-25 | The coordinator starts with no lock recorded. |
| Coordination.JobCoordinator.RegisterJob | src/main/java/com/foo/config/DynamoDBJobCoordinator.java:27-47 | Returns true iff the lock client returned an item. On success the job's entry becomes exactly that item, replacing any older one. An interruption or an empty answer leaves the map unchanged. No other key changes. |
| Coordination.AfterRegister | src/main/java/com/foo/config/DynamoDBJobCoordinator.java:36-46 | The map after a registration: the acquired item is under the job name, a failed attempt changes nothing, and every other key is kept. |
| Coordination.JobCoordinator.CanContinue | src/main/java/com/foo/config/DynamoDBJobCoordinator.java:49-76 | Reads the map and changes nothing. False when the entry is absent. False when it has expired. True exactly when the entry is present and unexpired. |
| Coordination.JobCoordinator.UnregisterJob | src/main/java/com/foo/config/DynamoDBJobCoordinator.java:78-100 | Always removes the job's entry and keeps every other key. It hands the removed item to the release call. With no entry there is no release call and the map is unchanged. |
| Coordination.AfterUnregister | src/main/java/com/foo/config/DynamoDBJobCoordinator.java:79 | The map after `remove`: the key is gone, the map is unchanged if it was absent, and the other keys are kept. |
| Coordination.EntryNeverReplaced | src/main/java/com/foo/config/DynamoDBJobCoordinator.java:42 | Over any history with no successful registration of the job, its entry either stays the same item or disappears. |
| Coordination.NoFlipBackWithoutRegister | src/main/java/com/foo/config/DynamoDBJobCoordinator.java:49-75 | Once `canContinue(j)` is false, it stays false at every later time, over any history, until a `registerJob(j)` succeeds. |
| Coordination.EntryKept | src/main/java/com/foo/config/DynamoDBJobCoordinator.java:53-56 | An entry survives every history that neither acquires nor unregisters that job, expired or not. |
| Coordination.ValidUntilExpiry | src/main/java/com/foo/config/DynamoDBJobCoordinator.java:42-69 | After a successful `registerJob(j)`, `canContinue(j)` holds exactly while the acquired item has not expired, as long as the job is neither unregistered nor acquired again. |
| Scheduling.SyncScheduler.constructor | src/main/java/com/foo/config/SyncScheduler.java:21-22 | The scheduler starts with the configured `tokens` and no task scheduled. |
| Scheduling.SyncScheduler.AcquireLocks | src/main/java/com/foo/config/SyncScheduler.java:68-82 | The loop returns `AcquirePass`: the won jobs among those it tried. It called `registerJob` for exactly the jobs `Tried` lists, in order, and the lock map is the result of those calls. |
| Scheduling.TriedIsPrefix | src/main/java/com/foo/config/SyncScheduler.java:71-74 | A pass tries a prefix of its input, in input order. |
| Scheduling.SuccessesMembers | src/main/java/com/foo/config/SyncScheduler.java:75-79 | The result of a pass is exactly the tried jobs whose `registerJob` returned true, in input order. |
| Scheduling.PassWithinCapacity | src/main/java/com/foo/config/SyncScheduler.java:70-74 | When `tokens >= 0`, a pass returns at most `tokens` jobs. |
| Scheduling.PassStopsOnlyWhenFull | src/main/java/com/foo/config/SyncScheduler.java:72-74 | A pass leaves jobs untried only when it has won exactly `tokens` locks. |
| Scheduling.NoCallAfterCapacity | src/main/java/com/foo/config/SyncScheduler.java:72-79 | When a pass reaches its capacity, the last job it tried is the one that filled it, so no `registerJob` call follows. |
| Scheduling.PassDistinct | src/main/java/com/foo/config/SyncScheduler.java:71-81 | On distinct jobs, a pass returns distinct jobs. |
| Scheduling.WithoutMembers | src/main/java/com/foo/config/SyncScheduler.java:46 | `removeAll` keeps exactly the jobs not yet acquired, in order, and keeps them distinct. |
| Scheduling.SyncScheduler.Initialize | src/main/java/com/foo/config/SyncScheduler.java:37-66 | The acquired jobs, the new `tokens` and the lock map are those `Assign` computes. The scheduled tasks are the old ones plus one 30-second fixed-delay task per acquired job, in order. |
| Scheduling.SyncScheduler.RetryAcquisition | src/main/java/com/foo/config/SyncScheduler.java:45-57 | The retry loop computes `Retry`: the passes, the `tokens` bump and the lock map. |
| Scheduling.SyncScheduler.ScheduleTasks | src/main/java/com/foo/config/SyncScheduler.java:61-65 | The loop appends `TasksFor(jobs)`: one fixed-delay task per job, in order. |
| Scheduling.TasksFor | src/main/java/com/foo/config/SyncScheduler.java:61-65 | Task `i` runs job `i` every 30 seconds, and there are as many tasks as jobs. |
| Scheduling.FirstPass | src/main/java/com/foo/config/SyncScheduler.java:38-39 | The first pass wins only configured jobs, and distinct ones when the names are distinct. |
| Scheduling.RetryStructure | src/main/java/com/foo/config/SyncScheduler.java:45-57 | The retry loop keeps the earlier passes, adds passes numbered by `count`, makes at most 3 passes in all, and keeps `tokens - acquired` unchanged. |
| Scheduling.RetryOnlyConfigured | src/main/java/com/foo/config/SyncScheduler.java:46-53 | The retry loop only ever adds jobs it was given. |
| Scheduling.RetryDistinct | src/main/java/com/foo/config/SyncScheduler.java:46-53 | The retry loop never adds an already acquired job. |
| Scheduling.RetryStopsEarlyWhenNoneLeft | src/main/java/com/foo/config/SyncScheduler.java:45-49 | If the loop ends before its third pass with tokens still free, every job has been acquired. |
| Scheduling.RetryTriesOnlyUnacquired | src/main/java/com/foo/config/SyncScheduler.java:46-51 | Each retry pass tries only jobs that no earlier pass acquired. |
| Scheduling.AssignRounds | src/main/java/com/foo/config/SyncScheduler.java:37-58 | `initialize` makes 1 to 3 passes, numbered 0, 1, 2. Pass 0 is the greedy pass over all jobs. There is no retry when the first pass won exactly `tokens` locks. The first pass wins at most `tokens` jobs, and the result is the jobs of all passes together. |
| Scheduling.AssignFreeTokens | src/main/java/com/foo/config/SyncScheduler.java:52-53 | `tokens - acquiredLocks.size()` after `initialize` equals its value after the first pass, because each retry raises both by the same count. |
| Scheduling.RetryCanExceedCapacity | src/main/java/com/foo/config/SyncScheduler.java:51-53 | A concrete run in which the retry pass takes the whole `tokens` budget again: 2 tokens end with 3 acquired jobs and `tokens` at 4. |
| Scheduling.AssignMembers | src/main/java/com/foo/config/SyncScheduler.java:37-58 | Only configured jobs are acquired, with no duplicates when the names are distinct. If fewer than 3 passes were made and tokens are still free, every job was acquired. |
| Scheduling.AssignRetriesTryOnlyUnacquired | src/main/java/com/foo/config/SyncScheduler.java:46-51 | No retry pass of `initialize` calls `registerJob` for a job already acquired. |
| Scheduling.RetryPassesTryAJob | src/main/java/com/foo/config/SyncScheduler.java:45-51 | Every pass the retry loop makes tries at least one job. |
| Scheduling.RetryTriesOnlyGiven | src/main/java/com/foo/config/SyncScheduler.java:46-51 | Every pass the retry loop makes tries only jobs from the list it was given. |
| Scheduling.AssignRetriesOnlyWhileJobsLeft | src/main/java/com/foo/config/SyncScheduler.java:44-51 | The retry loop stops once no unacquired job is left. Every retry pass of `initialize` tries at least one job, and only configured jobs. The first job it tries is a configured job that no earlier pass acquired. |
| Scheduling.AllFreePass | src/main/java/com/foo/config/SyncScheduler.java:68-82 | When every lock is free, a pass takes the first `tokens` jobs. |
| Scheduling.AllFreeFillsCapacity | src/main/java/com/foo/config/SyncScheduler.java:37-58 | When every lock is free and `0 <= tokens <= jobs`, `initialize` acquires exactly the first `tokens` jobs in one pass. |
| Scheduling.OneTaskPerJob | src/main/java/com/foo/config/SyncScheduler.java:61-65 | On distinct jobs, each job gets exactly one task and any other name gets none. |
| Scheduling.InitializeSchedulesEachAcquiredJobOnce | src/main/java/com/foo/config/SyncScheduler.java:61-65 | With distinct configured names, `initialize` schedules exactly one task per acquired job and none for any other job. |
| Executions.InstancesNamed | src/main/java/com/foo/config/JobSyncRunnable.java:79 | The instances listed under a job name are instances of the store with that name. |
| Executions.FindJobInstancesByJobName | src/main/java/com/foo/config/JobSyncRunnable.java:79 | A page never holds more than `count` instances, and only instances of the store with that job name. |
| Executions.ExecutionsOf | src/main/java/com/foo/config/JobSyncRunnable.java:91 | `getJobExecutions(instance)` returns no more executions than the store holds, each one of that instance. |
| Executions.ExecStore.StartNextInstance | src/main/java/com/foo/config/JobSyncRunnable.java:58 | Records a new newest instance and an execution of it that has neither started nor ended. Returns the execution's id and keeps the store's invariant. |
| Executions.ExecStore.ElapseUntil | src/main/java/com/foo/config/JobSyncRunnable.java:105 | During a sleep, the store moves to the later time: executions whose process ends by then have ended. |
| Executions.AdvancedOnlyEnds | src/main/java/com/foo/config/JobSyncRunnable.java:103-105 | Time passing keeps each execution's identity. It only ends executions still running whose end is scheduled. |
| Executions.AdvancedTwice | src/main/java/com/foo/config/JobSyncRunnable.java:103-105 | Two sleeps in a row give the same state as one sleep to the later time. |
| Executions.AdvancedAtStart | src/main/java/com/foo/config/JobSyncRunnable.java:96-98 | Before the first sleep nothing has changed. |
| Executions.AdvancedKeepsInvariant | src/main/java/com/foo/config/JobSyncRunnable.java:103-105 | Executions ending on their own keep the store's invariant. |
| JobSync.GetTheLastJobInstance | src/main/java/com/foo/config/JobSyncRunnable.java:76-84 | The instance returned, if any, is an instance of the store carrying the job's name. |
| JobSync.IsLastJobExecutionStillRunning | src/main/java/com/foo/config/JobSyncRunnable.java:86-93 | True only when the job has a newest instance and the store lists at least one execution of it. |
| JobSync.LastInstanceIsNewest | src/main/java/com/foo/config/JobSyncRunnable.java:76-84 | `getTheLastJobInstance` returns nothing iff the job has no instance. Otherwise it returns the first instance listed under that name, which is the newest. |
| JobSync.StillRunningIffNewestRuns | src/main/java/com/foo/config/JobSyncRunnable.java:86-93 | `isLastJobExecutionStillRunning` is false when there is no instance. Otherwise it is true iff some execution of the newest instance has not ended. |
| JobSync.ExecutionsOfMembers | src/main/java/com/foo/config/JobSyncRunnable.java:91 | `getJobExecutions(instance)` returns exactly the store's executions of that instance. |
| JobSync.StartedInstanceIsRunning | src/main/java/com/foo/config/JobSyncRunnable.java:52-59 | Right after a successful start, the next tick sees the newest instance running and does not start another. |
| JobSync.StopSteps | src/main/java/com/foo/config/JobSyncRunnable.java:123-131 | The inner loop stops every step that was running or STOPPING: status STOPPED, exit code STOPPED, an end time. Every other step is left as it was, and no step is added or lost. |
| JobSync.StopExecution | src/main/java/com/foo/config/JobSyncRunnable.java:122-136 | A cleaned-up execution keeps its identity and start time and ends STOPPED with exit code STOPPED and an end time. Its running or STOPPING steps become STOPPED with an end time. Its other steps are untouched. |
| JobSync.Reaped | src/main/java/com/foo/config/JobSyncRunnable.java:116-141 | After the clean-up, no execution of the job is both started and unended. Exactly the job's started, unended executions are stopped; every other execution, including one never started, is unchanged. |
| JobSync.ReapedKeepsInvariant | src/main/java/com/foo/config/JobSyncRunnable.java:116-141 | Forcing executions to STOPPED keeps the store's invariant. |
| JobSync.ReapedLeavesOnlyUnstartedRunning | src/main/java/com/foo/config/JobSyncRunnable.java:110-119 | After the clean-up, `isLastJobExecutionStillRunning` is true iff the newest instance has an unended execution that never started. |
| JobSync.UnstartedRunSurvivesCleanUp | src/main/java/com/foo/config/JobSyncRunnable.java:110-119 | A concrete store whose only execution was created but never started: it is running before the clean-up, the clean-up leaves it as it was, and the job still counts as running afterwards. |
| JobSync.ReapedUnended | src/main/java/com/foo/config/JobSyncRunnable.java:116-141 | The intended clean-up: every unended execution of the job, started or not, is stopped, and nothing else changes. |
| JobSync.ReapedUnendedLeavesNothingRunning | src/main/java/com/foo/config/JobSyncRunnable.java:110-113 | With the intended clean-up, `isLastJobExecutionStillRunning` is false afterwards. |
| JobSync.FinishedInTimeIsNotRunning | src/main/java/com/foo/config/JobSyncRunnable.java:98-113 | If every running execution of the job ends on its own within the wait, the job is no longer seen running. |
| JobSync.JobSyncRunnable.constructor | src/main/java/com/foo/config/JobSyncRunnable.java:31-42 | Creating the task already runs the abandoned-run check: only the executions change, and they change exactly as `checkForAbandonedJobs` promises for some wait it made (see `CheckForAbandonedJobs`). |
| JobSync.JobSyncRunnable.Run | src/main/java/com/foo/config/JobSyncRunnable.java:49-74 | Three-way tick. (1) Lock valid and a run still going: nothing happens. (2) Lock valid and nothing running: exactly one `startNextInstance`; if it throws, it is caught and nothing changes. (3) Lock invalid: no start at all; `registerJob` is tried again, and only a success leads to the abandoned-run check, whose wait and outcome are exactly as `CheckForAbandonedJobs` promises. The lock map changes only through that registration. |
| JobSync.JobSyncRunnable.CheckForAbandonedJobs | src/main/java/com/foo/config/JobSyncRunnable.java:95-114 | Waits an even number of seconds, at most 20, polling again only when the previous poll saw a run in flight. It cleans up iff the newest instance still runs after the full 20 seconds, and never when every run ends within them. After a clean-up no started execution of the job is running, and the job still counts as running only through an execution that never started. |
| JobSync.JobSyncRunnable.WaitForGracePeriod | src/main/java/com/foo/config/JobSyncRunnable.java:96-109 | The wait adds 2 seconds per poll and ends by 20 seconds. It stops early only when nothing is running, and it polls again only because the previous poll saw a run in flight. |
| JobSync.JobSyncRunnable.ReapIfStillRunning | src/main/java/com/foo/config/JobSyncRunnable.java:110-113 | Cleans up exactly when the job is still running. After a clean-up no started execution of the job is left running, and the job counts as running afterwards iff its newest instance has an unended execution that never started. |
| JobSync.JobSyncRunnable.CleanUpAbandonedJobs | src/main/java/com/foo/config/JobSyncRunnable.java:116-141 | The nested loops rewrite the store to `Reaped`: the job's started, unended executions and their running steps are stopped. |
| Chunks.BeforeChunk | src/main/java/com/foo/config/ChunkListener.java:14-19 | Refuses the chunk, with the message "Lock expired for " plus the job name, iff `canContinue` is false for the chunk's job. Otherwise it proceeds. It only reads the coordinator, so the entry stays after a refusal. |

## Left out

- Heartbeat renewal of leases by the lock client is left out. An item's
  expiry therefore depends only on the clock, and validity can only run
  out, never come back by itself.
- The outcome of `releaseLock` is left out (DynamoDBJobCoordinator.java:85-98).
  It is only logged. `UnregisterJob` returns the item it would release.
- `DynamoDBJobCoordinator.cleanup` (closing the client) is I/O and is left out.
- The lock client's mutual exclusion across instances is left out, along
  with conditional writes and retries inside `tryAcquireLock`. Each answer
  is an input.
- Threads are left out: `ConcurrentHashMap`, the 20-thread pool and the
  task scheduler's periodic firing. Each call is modelled alone.
- Logging and `printStackTrace` are left out.
- The `RuntimeException` thrown when the sleep is interrupted is left out.
  Sleeping is the `secondsWaited` counter plus `ElapseUntil`.
- `Scheduling.SyncScheduler.Initialize` does not create the runnable for
  each job. In the source, `jobSyncRunnableBeanFactory.apply(job)` runs the
  runnable's constructor, and with it the abandoned-run check. That
  constructor is modelled on its own as `JobSync.JobSyncRunnable.constructor`.
- `JobSync.JobSyncRunnable.CleanUpAbandonedJobs` gives every rewritten
  execution and step the same end time, where the source calls
  `new Date()` for each. It visits the selected executions in store order,
  where the source iterates over an unordered set.
- During the grace wait the only change the environment makes is that
  executions end on their own. No new instance or execution appears, no
  execution gets its start time, and no step changes status while the
  task sleeps.
- `Scheduling.SyncScheduler.RetryAcquisition` does not model the 32-bit
  wrap-around of the `Integer` field `tokens` at 2^31-1 when a retry pass
  adds its count (SyncScheduler.java:52). The model's `int` is unbounded.
- `JobSync.JobSyncRunnable.Run` models a throwing `startNextInstance` as one
  that changes nothing. Other throwables, from the repository or the lock
  client, are not modelled.
- The job repository's persistence is left out. `Executions.ExecStore` is a
  list-based stand-in. It models these repository calls and no others:
  - `findJobInstancesByJobName`, as `FindJobInstancesByJobName`;
  - `getJobExecutions`, as `ExecutionsOf`;
  - `startNextInstance`, as `ExecStore.StartNextInstance`;
  - `findRunningJobExecutions`, as the `IsStartedAndRunning` filter in
    `Reaped` and `CleanUpAbandonedJobs`;
  - `jobRepository.update` of a step or a job execution, as the store
    rewrite in `CleanUpAbandonedJobs`.
- The grace wait splits `checkForAbandonedJobs` into `WaitForGracePeriod`
  and `ReapIfStillRunning`. Together they make the same calls in the same
  order as the source.

## Findings

| source | as written | input that shows it | evidently intended | confidence | as-written member | corrected member |
|---|---|---|---|---|---|---|
| src/main/java/com/foo/config/JobSyncRunnable.java:110-119 | The clean-up stops only what `findRunningJobExecutions` returns: executions with a start time and no end time. `isLastJobExecutionStillRunning` counts every execution with no end time. | A former holder dies after `startNextInstance` created the execution and before the launcher's thread set its start time. The store then holds one STARTING execution with neither time. The grace wait runs its 20 seconds, the clean-up leaves that execution as it is, and every later tick sees the job still running and skips it. | The clean-up stops every unended execution of the job, so the next tick with the lock starts the job again. | medium, not executed | JobSync.UnstartedRunSurvivesCleanUp | JobSync.ReapedUnendedLeavesNothingRunning |

The task class keeps the code as written: `CleanUpAbandonedJobs` rewrites
the store to `Reaped`, and its contracts say what the program does. The
intended clean-up is `ReapedUnended`, with the property the program
evidently aims at proved about it.
