/** The per-job dispatch task (JobSyncRunnable): each tick revalidates the
    job's lock, skips while the newest instance still has a running
    execution, and otherwise starts the next instance; a lock won back after
    it was lost triggers the reaping of executions a former holder left
    running. */
module JobSync {

  import opened Wrappers
  import opened Coordination
  import opened Executions

  /** How long a former holder is given to finish, in seconds: twice the lease. */
  const GracePeriodSeconds: nat := LeaseDurationSeconds * 2

  /** The sleep between two polls of the grace-period wait, in seconds. */
  const PollSeconds: nat := 2

  /** `getTheLastJobInstance`: the newest instance of `jobName`, if any. */
  function GetTheLastJobInstance(instances: seq<JobInstance>, jobName: string): (r: Option<JobInstance>)
    ensures r.Some? ==> r.value in instances && r.value.jobName == jobName
  {
    var previousInstances := FindJobInstancesByJobName(instances, jobName, 0, 1);
    if |previousInstances| == 0 then None else Some(previousInstances[0])
  }

  /** `isLastJobExecutionStillRunning`: some execution of the newest
      instance of `jobName` has not ended; false when there is no instance. */
  function IsLastJobExecutionStillRunning(instances: seq<JobInstance>, executions: seq<JobExecution>, jobName: string): (r: bool)
    ensures r ==> GetTheLastJobInstance(instances, jobName).Some? && ExecutionsOf(executions, GetTheLastJobInstance(instances, jobName).value) != []
  {
    match GetTheLastJobInstance(instances, jobName)
    case None => false
    case Some(instance) => exists e | e in ExecutionsOf(executions, instance) :: e.IsRunning()
  }

  /** The newest instance of `jobName` is the first one the store lists
      under that name; there is none exactly when no instance has that name. */
  lemma {:induction false} LastInstanceIsNewest(instances: seq<JobInstance>, jobName: string)
    ensures GetTheLastJobInstance(instances, jobName).None? <==> forall m | 0 <= m < |instances| :: instances[m].jobName != jobName
    ensures GetTheLastJobInstance(instances, jobName).Some? ==>
            exists k | 0 <= k < |instances| ::
              && instances[k] == GetTheLastJobInstance(instances, jobName).value
              && instances[k].jobName == jobName
              && forall m | 0 <= m < k :: instances[m].jobName != jobName
    decreases |instances|
  {
    if instances != [] {
      LastInstanceIsNewest(instances[1..], jobName);
      if instances[0].jobName != jobName {
        assert InstancesNamed(instances, jobName) == InstancesNamed(instances[1..], jobName);
        if GetTheLastJobInstance(instances, jobName).Some? {
          var k :| 0 <= k < |instances[1..]| && instances[1..][k] == GetTheLastJobInstance(instances, jobName).value
                   && instances[1..][k].jobName == jobName && forall m | 0 <= m < k :: instances[1..][m].jobName != jobName;
          assert instances[k + 1] == instances[1..][k];
          forall m | 0 <= m < k + 1 ensures instances[m].jobName != jobName {
            if m > 0 {
              assert instances[m] == instances[1..][m - 1];
            }
          }
        } else {
          forall m | 0 <= m < |instances| ensures instances[m].jobName != jobName {
            if m > 0 {
              assert instances[m] == instances[1..][m - 1];
            }
          }
        }
      }
    }
  }

  /** Members of `ExecutionsOf` are the store's executions of that instance. */
  lemma {:induction false} ExecutionsOfMembers(executions: seq<JobExecution>, instance: JobInstance)
    ensures forall e | e in ExecutionsOf(executions, instance) :: e in executions && e.instanceId == instance.id
    ensures forall e | e in executions && e.instanceId == instance.id :: e in ExecutionsOf(executions, instance)
    decreases |executions|
  {
    if executions != [] {
      ExecutionsOfMembers(executions[1..], instance);
      assert executions == [executions[0]] + executions[1..];
    }
  }

  /** `isLastJobExecutionStillRunning` against the store directly: some
      execution of the first instance listed under `jobName` has not ended. */
  lemma StillRunningIffNewestRuns(instances: seq<JobInstance>, executions: seq<JobExecution>, jobName: string)
    ensures IsLastJobExecutionStillRunning(instances, executions, jobName) <==>
            exists k, i | 0 <= k < |instances| && 0 <= i < |executions| ::
              && instances[k].jobName == jobName
              && (forall m | 0 <= m < k :: instances[m].jobName != jobName)
              && executions[i].instanceId == instances[k].id
              && executions[i].IsRunning()
  {
    LastInstanceIsNewest(instances, jobName);
    match GetTheLastJobInstance(instances, jobName)
    case None =>
    case Some(instance) =>
      ExecutionsOfMembers(executions, instance);
      var k :| 0 <= k < |instances| && instances[k] == instance && instances[k].jobName == jobName
               && forall m | 0 <= m < k :: instances[m].jobName != jobName;
      if IsLastJobExecutionStillRunning(instances, executions, jobName) {
        var e :| e in ExecutionsOf(executions, instance) && e.IsRunning();
        var i :| 0 <= i < |executions| && executions[i] == e;
        assert executions[i].instanceId == instances[k].id;
      }
      forall k', i | 0 <= k' < |instances| && 0 <= i < |executions| && instances[k'].jobName == jobName
                     && (forall m | 0 <= m < k' :: instances[m].jobName != jobName)
                     && executions[i].instanceId == instances[k'].id && executions[i].IsRunning()
        ensures IsLastJobExecutionStillRunning(instances, executions, jobName)
      {
        assert !(k' < k) && !(k < k');
        assert executions[i] in ExecutionsOf(executions, instance);
      }
  }

  /** Right after a successful start, the next tick sees the newest instance
      still running, so one tick never starts a second run of the job while
      the first is going. */
  lemma StartedInstanceIsRunning(instances: seq<JobInstance>, executions: seq<JobExecution>, id: nat, jobName: string)
    ensures IsLastJobExecutionStillRunning([JobInstance(id, jobName)] + instances, executions + [NewExecution(id, jobName)], jobName)
  {
    var ins := [JobInstance(id, jobName)] + instances;
    var es := executions + [NewExecution(id, jobName)];
    assert InstancesNamed(ins, jobName) == [JobInstance(id, jobName)] + InstancesNamed(instances, jobName);
    ExecutionsOfMembers(es, JobInstance(id, jobName));
    assert NewExecution(id, jobName) in es;
  }

  /** A step `cleanUpAbandonedJobs` stops: running or stopping. */
  predicate NeedsStop(step: StepExecution) {
    step.status.IsRunning() || step.status == Stopping
  }

  /** A step as `cleanUpAbandonedJobs` leaves it. */
  function StopStep(step: StepExecution, endTime: int): StepExecution {
    if NeedsStop(step) then step.(status := Stopped, exitCode := ExitStopped, endTime := Some(endTime)) else step
  }

  /** The inner loop of `cleanUpAbandonedJobs`: every running or stopping
      step becomes STOPPED at `endTime`; the others are left as they are. */
  method StopSteps(stepExecutions: seq<StepExecution>, endTime: int) returns (stopped: seq<StepExecution>)
    ensures |stopped| == |stepExecutions|
    ensures forall k | 0 <= k < |stopped| :: stopped[k] == StopStep(stepExecutions[k], endTime)
  {
    stopped := stepExecutions;
    var s := 0;
    while s < |stopped|
      invariant 0 <= s <= |stopped| == |stepExecutions|
      invariant forall k | 0 <= k < s :: stopped[k] == StopStep(stepExecutions[k], endTime)
      invariant forall k | s <= k < |stopped| :: stopped[k] == stepExecutions[k]
    {
      var stepExecution := stopped[s];
      var status := stepExecution.status;
      if status.IsRunning() || status == Stopping {
        stopped := stopped[s := stepExecution.(status := Stopped, exitCode := ExitStopped, endTime := Some(endTime))];
      }
      s := s + 1;
    }
  }

  /** A running execution as `cleanUpAbandonedJobs` leaves it. */
  function StopExecution(e: JobExecution, endTime: int): (r: JobExecution)
    ensures r.id == e.id && r.instanceId == e.instanceId && r.jobName == e.jobName && r.startTime == e.startTime
    ensures r.status == Stopped && r.exitCode == ExitStopped && r.endTime == Some(endTime)
    ensures !r.IsRunning()
    ensures |r.steps| == |e.steps|
    ensures forall k | 0 <= k < |r.steps| :: !NeedsStop(r.steps[k])
    ensures forall k | 0 <= k < |r.steps| && !NeedsStop(e.steps[k]) :: r.steps[k] == e.steps[k]
    ensures forall k | 0 <= k < |r.steps| && NeedsStop(e.steps[k]) ::
              r.steps[k].status == Stopped && r.steps[k].exitCode == ExitStopped && r.steps[k].endTime == Some(endTime)
              && r.steps[k].stepName == e.steps[k].stepName
  {
    var steps := seq(|e.steps|, k requires 0 <= k < |e.steps| => StopStep(e.steps[k], endTime));
    e.(status := Stopped, exitCode := ExitStopped, endTime := Some(endTime), steps := steps)
  }

  /** The executions after `cleanUpAbandonedJobs` for `jobName` at
      `endTime`: the repository's `findRunningJobExecutions` hands it only
      the executions of the job that have a start time and no end time, and
      each of those is forced to STOPPED; every other execution, including
      one that was created but never started, is left as it was. */
  function Reaped(executions: seq<JobExecution>, jobName: string, endTime: int): (r: seq<JobExecution>)
    ensures |r| == |executions|
    ensures forall k | 0 <= k < |r| :: r[k].id == executions[k].id && r[k].instanceId == executions[k].instanceId
                                         && r[k].jobName == executions[k].jobName
    ensures forall k | 0 <= k < |r| && r[k].jobName == jobName :: !r[k].IsStartedAndRunning()
    ensures forall k | 0 <= k < |r| && !(executions[k].jobName == jobName && executions[k].IsStartedAndRunning()) ::
              r[k] == executions[k]
    ensures forall k | 0 <= k < |r| && executions[k].jobName == jobName && executions[k].IsStartedAndRunning() ::
              r[k] == StopExecution(executions[k], endTime)
  {
    seq(|executions|, k requires 0 <= k < |executions| =>
      if executions[k].jobName == jobName && executions[k].IsStartedAndRunning() then StopExecution(executions[k], endTime)
      else executions[k])
  }

  /** Forcing executions to STOPPED keeps the repository's invariant. */
  lemma ReapedKeepsInvariant(instances: seq<JobInstance>, executions: seq<JobExecution>, nextId: nat, jobName: string, endTime: int)
    requires StoreInvariant(instances, executions, nextId)
    ensures StoreInvariant(instances, Reaped(executions, jobName, endTime), nextId)
  {
  }

  /** The newest instance of `jobName` has an execution that has not ended
      and was never given a start time. */
  predicate LastRunNeverStarted(instances: seq<JobInstance>, executions: seq<JobExecution>, jobName: string) {
    match GetTheLastJobInstance(instances, jobName)
    case None => false
    case Some(instance) => exists e | e in ExecutionsOf(executions, instance) :: e.IsRunning() && e.startTime.None?
  }

  /** After the clean-up the newest instance still counts as running
      exactly when one of its executions never started: the clean-up stops
      every started one and cannot see the others. */
  lemma ReapedLeavesOnlyUnstartedRunning(instances: seq<JobInstance>, executions: seq<JobExecution>, jobName: string, endTime: int)
    requires Consistent(instances, executions)
    ensures IsLastJobExecutionStillRunning(instances, Reaped(executions, jobName, endTime), jobName)
            <==> LastRunNeverStarted(instances, executions, jobName)
  {
    var r := Reaped(executions, jobName, endTime);
    LastInstanceIsNewest(instances, jobName);
    match GetTheLastJobInstance(instances, jobName)
    case None =>
    case Some(instance) =>
      ExecutionsOfMembers(r, instance);
      ExecutionsOfMembers(executions, instance);
      var k :| 0 <= k < |instances| && instances[k] == instance && instances[k].jobName == jobName;
      forall e | e in ExecutionsOf(r, instance) && e.IsRunning()
        ensures e in ExecutionsOf(executions, instance) && e.startTime.None?
      {
        var i :| 0 <= i < |r| && r[i] == e;
        assert executions[i].instanceId == instances[k].id;
        assert r[i] == executions[i];
      }
      forall e | e in ExecutionsOf(executions, instance) && e.IsRunning() && e.startTime.None?
        ensures e in ExecutionsOf(r, instance)
      {
        var i :| 0 <= i < |executions| && executions[i] == e;
        assert r[i] == executions[i];
      }
  }

  /** A run the store lists but whose launcher never set its start time
      (its process died first) survives the clean-up: the job then counts
      as running for good, and no later tick starts it again. */
  lemma UnstartedRunSurvivesCleanUp(endTime: int)
    ensures var instances := [JobInstance(0, "job")];
            var executions := [NewExecution(0, "job")];
            && IsLastJobExecutionStillRunning(instances, executions, "job")
            && Reaped(executions, "job", endTime) == executions
            && IsLastJobExecutionStillRunning(instances, Reaped(executions, "job", endTime), "job")
  {
    var executions := [NewExecution(0, "job")];
    StartedInstanceIsRunning([], [], 0, "job");
    assert [JobInstance(0, "job")] + [] == [JobInstance(0, "job")];
    assert [] + executions == executions;
    assert Reaped(executions, "job", endTime)[0] == executions[0];
  }

  /** The clean-up as evidently intended: every execution of the job that
      has not ended is forced to STOPPED, started or not. */
  function ReapedUnended(executions: seq<JobExecution>, jobName: string, endTime: int): (r: seq<JobExecution>)
    ensures |r| == |executions|
    ensures forall k | 0 <= k < |r| :: r[k].id == executions[k].id && r[k].instanceId == executions[k].instanceId
                                         && r[k].jobName == executions[k].jobName
    ensures forall k | 0 <= k < |r| && r[k].jobName == jobName :: !r[k].IsRunning()
    ensures forall k | 0 <= k < |r| && !(executions[k].jobName == jobName && executions[k].IsRunning()) :: r[k] == executions[k]
    ensures forall k | 0 <= k < |r| && executions[k].jobName == jobName && executions[k].IsRunning() ::
              r[k] == StopExecution(executions[k], endTime)
  {
    seq(|executions|, k requires 0 <= k < |executions| =>
      if executions[k].jobName == jobName && executions[k].IsRunning() then StopExecution(executions[k], endTime)
      else executions[k])
  }

  /** With the intended clean-up nothing of the newest instance is running
      any more, so the next tick with the lock starts the job again. */
  lemma ReapedUnendedLeavesNothingRunning(instances: seq<JobInstance>, executions: seq<JobExecution>, jobName: string, endTime: int)
    requires Consistent(instances, executions)
    ensures !IsLastJobExecutionStillRunning(instances, ReapedUnended(executions, jobName, endTime), jobName)
  {
    var r := ReapedUnended(executions, jobName, endTime);
    LastInstanceIsNewest(instances, jobName);
    match GetTheLastJobInstance(instances, jobName)
    case None =>
    case Some(instance) =>
      ExecutionsOfMembers(r, instance);
      var k :| 0 <= k < |instances| && instances[k] == instance && instances[k].jobName == jobName;
      forall e | e in ExecutionsOf(r, instance) ensures !e.IsRunning() {
        var i :| 0 <= i < |r| && r[i] == e;
        assert executions[i].instanceId == instances[k].id;
      }
  }

  /** Every running execution of `jobName` ends on its own by time `t`. */
  ghost predicate FinishesBy(executions: seq<JobExecution>, completesAt: map<nat, int>, jobName: string, t: int) {
    forall k | 0 <= k < |executions| && executions[k].jobName == jobName && executions[k].IsRunning() ::
      executions[k].id in completesAt && completesAt[executions[k].id] <= t
  }

  /** The former holder ending every running execution of `jobName` within
      `t` means nothing of the job is seen running at `t`: then the grace
      wait ends early and no clean-up happens. */
  lemma FinishedInTimeIsNotRunning(instances: seq<JobInstance>, executions: seq<JobExecution>, completesAt: map<nat, int>,
                                   jobName: string, t: int)
    requires Consistent(instances, executions)
    requires FinishesBy(executions, completesAt, jobName, t)
    ensures !IsLastJobExecutionStillRunning(instances, Advanced(executions, completesAt, t), jobName)
  {
    var r := Advanced(executions, completesAt, t);
    LastInstanceIsNewest(instances, jobName);
    match GetTheLastJobInstance(instances, jobName)
    case None =>
    case Some(instance) =>
      ExecutionsOfMembers(r, instance);
      var k :| 0 <= k < |instances| && instances[k] == instance && instances[k].jobName == jobName;
      forall e | e in ExecutionsOf(r, instance) ensures !e.IsRunning() {
        var i :| 0 <= i < |r| && r[i] == e;
        assert executions[i].instanceId == instances[k].id;
        assert r[i] == CompletedBy(executions[i], completesAt, t);
      }
  }

  /** What `checkForAbandonedJobs`, started at `now` on the executions
      `before`, promises of the executions `after` it leaves: it waited
      `secondsWaited` seconds, in steps of two and at most for the grace
      period, ending early only once the newest instance had stopped
      running; it cleaned up exactly when that instance still ran at the end
      of the wait, and then no started execution of the job is left running;
      a run that ends within the grace period is never forced to STOPPED;
      and the job still counts as running afterwards only through an
      execution that never started. */
  ghost predicate AbandonedCheck(instances: seq<JobInstance>, before: seq<JobExecution>, after: seq<JobExecution>,
                                 completesAt: map<nat, int>, jobName: string, now: int, secondsWaited: nat, cleanedUp: bool)
  {
    var settled := Advanced(before, completesAt, now + secondsWaited);
    && secondsWaited % PollSeconds == 0 && secondsWaited <= GracePeriodSeconds
    && (secondsWaited > 0 ==>
          IsLastJobExecutionStillRunning(instances, Advanced(before, completesAt, now + secondsWaited - PollSeconds), jobName))
    && (secondsWaited < GracePeriodSeconds ==> !cleanedUp)
    && cleanedUp == IsLastJobExecutionStillRunning(instances, settled, jobName)
    && after == (if cleanedUp then Reaped(settled, jobName, now + secondsWaited) else settled)
    && (FinishesBy(before, completesAt, jobName, now + GracePeriodSeconds) ==> !cleanedUp)
    && (cleanedUp ==> forall k | 0 <= k < |after| && after[k].jobName == jobName :: !after[k].IsStartedAndRunning())
    && (IsLastJobExecutionStillRunning(instances, after, jobName) <==> cleanedUp && LastRunNeverStarted(instances, settled, jobName))
  }

  /** What one tick did. */
  datatype Tick =
    | Triggered(executionId: nat)
    | LastRunStillGoing
    | StartFailed
    | NotReregistered
    | Reregistered(secondsWaited: nat, cleanedUp: bool)

  /** The execution engine's answer to `startNextInstance`: it starts the
      instance, or it throws (the tick catches and only logs it). */
  datatype StartAnswer = StartAccepted | StartThrows

  class JobSyncRunnable {
    const jobName: string
    const coordinator: JobCoordinator
    const store: ExecStore

    /** Creating the task already checks for abandoned executions. */
    constructor (jobName: string, coordinator: JobCoordinator, store: ExecStore, now: int, completesAt: map<nat, int>)
      requires store.Valid()
      requires forall id | id in completesAt :: completesAt[id] > now
      modifies store`executions
      ensures this.jobName == jobName && this.coordinator == coordinator && this.store == store
      ensures store.Valid()
      ensures store.instances == old(store.instances) && store.nextId == old(store.nextId)
      ensures exists secondsWaited: nat, cleanedUp: bool ::
                AbandonedCheck(store.instances, old(store.executions), store.executions, completesAt, jobName, now, secondsWaited, cleanedUp)
    {
      this.jobName := jobName;
      this.coordinator := coordinator;
      this.store := store;
      new;
      var secondsWaited, cleanedUp := CheckForAbandonedJobs(now, completesAt);
    }

    /** One tick of the periodic task. `attempt` is the lock client's answer
        should the lock have to be registered again, `start` the engine's
        answer should an instance be started, and `completesAt` when a
        former holder's executions end on their own. */
    method Run(now: int, attempt: Acquisition, start: StartAnswer, completesAt: map<nat, int>) returns (tick: Tick)
      requires store.Valid()
      requires forall id | id in completesAt :: completesAt[id] > now
      modifies coordinator, store
      ensures store.Valid()
      ensures var valid := old(coordinator.CanContinue(jobName, now));
              var running := old(IsLastJobExecutionStillRunning(store.instances, store.executions, jobName));
              && (valid ==> coordinator.held == old(coordinator.held))
              && (!valid ==> coordinator.held == AfterRegister(old(coordinator.held), jobName, attempt))
              && (tick.Triggered? <==> valid && !running && start == StartAccepted)
              && (valid && running ==> tick == LastRunStillGoing)
              && (valid && !running && start == StartThrows ==> tick == StartFailed)
              && (!valid && !attempt.Acquired? ==> tick == NotReregistered)
              && (!valid && attempt.Acquired? ==> tick.Reregistered?)
      ensures !tick.Triggered? ==> store.instances == old(store.instances) && store.nextId == old(store.nextId)
      ensures tick.Triggered? ==>
                && tick.executionId == old(store.nextId)
                && store.instances == [JobInstance(tick.executionId, jobName)] + old(store.instances)
                && store.executions == old(store.executions) + [NewExecution(tick.executionId, jobName)]
      ensures !tick.Reregistered? && !tick.Triggered? ==> store.executions == old(store.executions)
      ensures tick.Reregistered? ==>
                AbandonedCheck(store.instances, old(store.executions), store.executions, completesAt, jobName, now,
                               tick.secondsWaited, tick.cleanedUp)
    {
      var canContinue := coordinator.CanContinue(jobName, now);
      if canContinue {
        if IsLastJobExecutionStillRunning(store.instances, store.executions, jobName) {
          return LastRunStillGoing;
        }
        if start == StartThrows {
          return StartFailed;
        }
        var jobExecutionId := store.StartNextInstance(jobName);
        tick := Triggered(jobExecutionId);
      } else {
        var registerJob := coordinator.RegisterJob(jobName, attempt);
        if !registerJob {
          tick := NotReregistered;
        } else {
          var secondsWaited, cleanedUp := CheckForAbandonedJobs(now, completesAt);
          tick := Reregistered(secondsWaited, cleanedUp);
        }
      }
    }

    /** Waits, in steps of two seconds and at most for the grace period, for
        the newest instance to stop running; if it still runs afterwards, its
        executions are forced to STOPPED. */
    method CheckForAbandonedJobs(now: int, completesAt: map<nat, int>) returns (secondsWaited: nat, cleanedUp: bool)
      requires store.Valid()
      requires forall id | id in completesAt :: completesAt[id] > now
      modifies store`executions
      ensures store.Valid()
      ensures AbandonedCheck(store.instances, old(store.executions), store.executions, completesAt, jobName, now, secondsWaited, cleanedUp)
    {
      ghost var start := store.executions;
      secondsWaited := WaitForGracePeriod(now, completesAt);
      AdvancedKeepsInvariant(store.instances, start, store.nextId, completesAt, now + secondsWaited);
      if secondsWaited == GracePeriodSeconds && FinishesBy(start, completesAt, jobName, now + secondsWaited) {
        FinishedInTimeIsNotRunning(store.instances, start, completesAt, jobName, now + secondsWaited);
      }
      cleanedUp := ReapIfStillRunning(now + secondsWaited);
    }

    /** The grace wait: polls every two seconds, for at most the grace
        period, until the newest instance has stopped running. */
    method WaitForGracePeriod(now: int, completesAt: map<nat, int>) returns (secondsWaited: nat)
      requires forall id | id in completesAt :: completesAt[id] > now
      modifies store`executions
      ensures secondsWaited % PollSeconds == 0 && secondsWaited <= GracePeriodSeconds
      ensures store.executions == Advanced(old(store.executions), completesAt, now + secondsWaited)
      ensures secondsWaited < GracePeriodSeconds ==> !IsLastJobExecutionStillRunning(store.instances, store.executions, jobName)
      ensures secondsWaited > 0 ==>
                IsLastJobExecutionStillRunning(store.instances, Advanced(old(store.executions), completesAt, now + secondsWaited - PollSeconds), jobName)
    {
      ghost var start := store.executions;
      var instances := store.instances;
      secondsWaited := 0;
      var gracePeriodInSeconds := GracePeriodSeconds;
      ghost var previous := start;
      assert PollSeconds == 2 && gracePeriodInSeconds == 20;
      AdvancedAtStart(start, completesAt, now);
      while IsLastJobExecutionStillRunning(instances, store.executions, jobName) && secondsWaited < gracePeriodInSeconds
        invariant secondsWaited % PollSeconds == 0 && secondsWaited <= gracePeriodInSeconds
        invariant store.executions == Advanced(start, completesAt, now + secondsWaited)
        invariant secondsWaited > 0 ==>
                    && previous == Advanced(start, completesAt, now + secondsWaited - PollSeconds)
                    && IsLastJobExecutionStillRunning(instances, previous, jobName)
        decreases gracePeriodInSeconds - secondsWaited
      {
        previous := store.executions;
        secondsWaited := secondsWaited + PollSeconds;
        AdvancedTwice(start, completesAt, now + secondsWaited - PollSeconds, now + secondsWaited);
        store.ElapseUntil(completesAt, now + secondsWaited);
      }
    }

    /** The check after the grace wait: forces the job's executions to
        STOPPED if its newest instance is still running. */
    method ReapIfStillRunning(endTime: int) returns (cleanedUp: bool)
      requires store.Valid()
      modifies store`executions
      ensures store.Valid()
      ensures cleanedUp == IsLastJobExecutionStillRunning(store.instances, old(store.executions), jobName)
      ensures store.executions == (if cleanedUp then Reaped(old(store.executions), jobName, endTime) else old(store.executions))
      ensures cleanedUp ==> forall k | 0 <= k < |store.executions| && store.executions[k].jobName == jobName ::
                              !store.executions[k].IsStartedAndRunning()
      ensures IsLastJobExecutionStillRunning(store.instances, store.executions, jobName)
              <==> cleanedUp && LastRunNeverStarted(store.instances, old(store.executions), jobName)
    {
      cleanedUp := IsLastJobExecutionStillRunning(store.instances, store.executions, jobName);
      if cleanedUp {
        ReapedKeepsInvariant(store.instances, store.executions, store.nextId, jobName, endTime);
        CleanUpAbandonedJobs(endTime);
        ReapedLeavesOnlyUnstartedRunning(store.instances, old(store.executions), jobName, endTime);
      }
    }

    /** Forces every started execution of the job that has not ended, and
        every running or stopping step under it, to STOPPED with `endTime`
        as end time. */
    method CleanUpAbandonedJobs(endTime: int)
      modifies store`executions
      ensures store.executions == Reaped(old(store.executions), jobName, endTime)
    {
      ghost var target := Reaped(store.executions, jobName, endTime);
      var k := 0;
      while k < |store.executions|
        invariant 0 <= k <= |store.executions| == |target|
        invariant forall i | 0 <= i < k :: store.executions[i] == target[i]
        invariant forall i | k <= i < |store.executions| :: store.executions[i] == old(store.executions)[i]
      {
        var jobExecution := store.executions[k];
        if jobExecution.jobName == jobName && jobExecution.IsStartedAndRunning() {
          var stepExecutions := StopSteps(jobExecution.steps, endTime);
          jobExecution := jobExecution.(status := Stopped, exitCode := ExitStopped, endTime := Some(endTime), steps := stepExecutions);
          assert jobExecution == StopExecution(old(store.executions)[k], endTime);
          store.executions := store.executions[k := jobExecution];
        }
        k := k + 1;
      }
      assert store.executions == target;
    }
  }
}
