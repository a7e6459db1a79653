/** The part of Spring Batch's job repository the dispatch loop reads and
    writes: job instances, their executions and the step executions under
    them. Only the queries and updates the coordination layer uses are
    modelled, over an in-memory store. */
module Executions {

  import opened Wrappers

  /** Spring Batch's `BatchStatus`. */
  datatype BatchStatus = Completed | Starting | Started | Stopping | Stopped | Failed | Abandoned | Unknown
  {
    /** `BatchStatus.isRunning()`: starting or started. */
    predicate IsRunning() {
      this == Starting || this == Started
    }
  }

  /** The exit codes of Spring Batch's `ExitStatus` constants. */
  datatype ExitCode = ExitUnknown | ExitExecuting | ExitCompleted | ExitNoop | ExitFailed | ExitStopped

  datatype StepExecution = StepExecution(stepName: string, status: BatchStatus, exitCode: ExitCode, endTime: Option<int>)

  datatype JobExecution = JobExecution(
    id: nat,
    instanceId: nat,
    jobName: string,
    status: BatchStatus,
    exitCode: ExitCode,
    startTime: Option<int>,
    endTime: Option<int>,
    steps: seq<StepExecution>)
  {
    /** `JobExecution.isRunning()` in Spring Batch 4: the execution has no
        end time yet, whatever its status says. */
    predicate IsRunning() {
      endTime.None?
    }

    /** What `JobExplorer.findRunningJobExecutions` selects: the execution
        has a start time and no end time. */
    predicate IsStartedAndRunning() {
      startTime.Some? && endTime.None?
    }
  }

  datatype JobInstance = JobInstance(id: nat, jobName: string)

  /** The instances of `jobName`, in the store's order (newest first). */
  function InstancesNamed(instances: seq<JobInstance>, jobName: string): (r: seq<JobInstance>)
    ensures |r| <= |instances|
    ensures forall x | x in r :: x in instances && x.jobName == jobName
    decreases |instances|
  {
    if instances == [] then []
    else if instances[0].jobName == jobName then [instances[0]] + InstancesNamed(instances[1..], jobName)
    else InstancesNamed(instances[1..], jobName)
  }

  /** `JobExplorer.findJobInstancesByJobName(jobName, start, count)`: the
      page of `jobName`'s instances, newest first. */
  function FindJobInstancesByJobName(instances: seq<JobInstance>, jobName: string, start: nat, count: nat): (r: seq<JobInstance>)
    ensures |r| <= count
    ensures forall x | x in r :: x in instances && x.jobName == jobName
  {
    var named := InstancesNamed(instances, jobName);
    if start >= |named| then []
    else if start + count <= |named| then named[start..start + count]
    else named[start..]
  }

  /** `JobExplorer.getJobExecutions(instance)`. */
  function ExecutionsOf(executions: seq<JobExecution>, instance: JobInstance): (r: seq<JobExecution>)
    ensures |r| <= |executions|
    ensures forall k | 0 <= k < |r| :: r[k].instanceId == instance.id
    decreases |executions|
  {
    if executions == [] then []
    else if executions[0].instanceId == instance.id then [executions[0]] + ExecutionsOf(executions[1..], instance)
    else ExecutionsOf(executions[1..], instance)
  }

  /** Every execution carries the job name of the instance it belongs to. */
  ghost predicate Consistent(instances: seq<JobInstance>, executions: seq<JobExecution>) {
    forall k, m | 0 <= k < |executions| && 0 <= m < |instances| && executions[k].instanceId == instances[m].id ::
      executions[k].jobName == instances[m].jobName
  }

  /** The execution a successful `startNextInstance` creates: STARTING,
      neither started nor ended; the launcher's own thread sets its start
      time later, when the job begins to execute. */
  function NewExecution(id: nat, jobName: string): JobExecution {
    JobExecution(id, id, jobName, Starting, ExitUnknown, None, None, [])
  }

  /** The execution as it is at time `t` when its own process, if it is
      still alive, ends it at `completesAt[e.id]`. */
  function CompletedBy(e: JobExecution, completesAt: map<nat, int>, t: int): JobExecution {
    if e.IsRunning() && e.id in completesAt && completesAt[e.id] <= t then
      e.(status := Completed, exitCode := ExitCompleted, endTime := Some(completesAt[e.id]))
    else e
  }

  /** The executions as they stand at time `t`: those whose process ends
      them by then have ended; the rest are as before. */
  function Advanced(executions: seq<JobExecution>, completesAt: map<nat, int>, t: int): (r: seq<JobExecution>)
    ensures |r| == |executions|
  {
    seq(|executions|, k requires 0 <= k < |executions| => CompletedBy(executions[k], completesAt, t))
  }

  /** Time passing keeps every execution's identity, ends only executions
      still running, and only those whose process has an end in view. */
  lemma AdvancedOnlyEnds(executions: seq<JobExecution>, completesAt: map<nat, int>, t: int)
    ensures var r := Advanced(executions, completesAt, t);
            && (forall k | 0 <= k < |r| :: r[k].id == executions[k].id && r[k].instanceId == executions[k].instanceId
                                           && r[k].jobName == executions[k].jobName)
            && (forall k | 0 <= k < |r| && !executions[k].IsRunning() :: r[k] == executions[k])
            && (forall k | 0 <= k < |r| && executions[k].id !in completesAt :: r[k] == executions[k])
  {
  }

  /** Time passing again changes nothing that had already ended. */
  lemma AdvancedTwice(executions: seq<JobExecution>, completesAt: map<nat, int>, t1: int, t2: int)
    requires t1 <= t2
    ensures Advanced(Advanced(executions, completesAt, t1), completesAt, t2) == Advanced(executions, completesAt, t2)
  {
    var a, b := Advanced(Advanced(executions, completesAt, t1), completesAt, t2), Advanced(executions, completesAt, t2);
    forall k | 0 <= k < |executions| ensures a[k] == b[k] {
      assert Advanced(executions, completesAt, t1)[k] == CompletedBy(executions[k], completesAt, t1);
    }
  }

  /** At the start of a wait nothing has been completed by its process yet,
      as every completion lies in the future. */
  lemma AdvancedAtStart(executions: seq<JobExecution>, completesAt: map<nat, int>, now: int)
    requires forall id | id in completesAt :: completesAt[id] > now
    ensures Advanced(executions, completesAt, now) == executions
  {
    var a := Advanced(executions, completesAt, now);
    forall k | 0 <= k < |executions| ensures a[k] == executions[k] {
      assert a[k] == CompletedBy(executions[k], completesAt, now);
    }
  }

  /** What the repository keeps true: executions agree with their
      instance's job name, and every id handed out lies below `nextId`. */
  ghost predicate StoreInvariant(instances: seq<JobInstance>, executions: seq<JobExecution>, nextId: nat) {
    && Consistent(instances, executions)
    && (forall m | 0 <= m < |instances| :: instances[m].id < nextId)
    && (forall k | 0 <= k < |executions| :: executions[k].id < nextId && executions[k].instanceId < nextId)
  }

  /** Executions ending on their own keep the repository's invariant. */
  lemma AdvancedKeepsInvariant(instances: seq<JobInstance>, executions: seq<JobExecution>, nextId: nat,
                               completesAt: map<nat, int>, t: int)
    requires StoreInvariant(instances, executions, nextId)
    ensures StoreInvariant(instances, Advanced(executions, completesAt, t), nextId)
  {
    AdvancedOnlyEnds(executions, completesAt, t);
  }

  class ExecStore {
    /** Job instances, newest first. */
    var instances: seq<JobInstance>
    /** Job executions, oldest first. */
    var executions: seq<JobExecution>
    /** The next id the repository hands out. */
    var nextId: nat

    ghost predicate Valid()
      reads this
    {
      StoreInvariant(instances, executions, nextId)
    }

    constructor ()
      ensures Valid() && instances == [] && executions == []
    {
      instances := [];
      executions := [];
      nextId := 0;
    }

    /** `JobOperator.startNextInstance(jobName)` with an asynchronous
        launcher: records a new instance, newest, and an execution of it
        that has neither started nor ended, and returns the execution's id. */
    method StartNextInstance(jobName: string) returns (executionId: nat)
      requires Valid()
      modifies this
      ensures Valid()
      ensures executionId == old(nextId) && nextId == old(nextId) + 1
      ensures instances == [JobInstance(executionId, jobName)] + old(instances)
      ensures executions == old(executions) + [NewExecution(executionId, jobName)]
    {
      executionId := nextId;
      instances := [JobInstance(executionId, jobName)] + instances;
      executions := executions + [NewExecution(executionId, jobName)];
      nextId := nextId + 1;
    }

    /** Lets the clock run to `t`: executions whose process is still alive
        end on their own at the time `completesAt` gives for them. */
    method ElapseUntil(completesAt: map<nat, int>, t: int)
      modifies this`executions
      ensures executions == Advanced(old(executions), completesAt, t)
    {
      executions := Advanced(executions, completesAt, t);
    }
  }
}
