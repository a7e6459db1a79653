/** The per-chunk gate (ChunkListener): before each chunk of a step, the
    job's lock is checked again and the chunk is refused once it is lost. */
module Chunks {

  import opened Coordination

  /** The part of Spring Batch's chunk context the gate looks at. */
  datatype ChunkContext = ChunkContext(jobName: string)

  /** What `beforeChunk` does: return normally, or throw an
      IllegalStateException carrying `message`. */
  datatype ChunkGate = Proceed | Abort(message: string)

  /** `beforeChunk`: refuses the chunk exactly when the coordinator can no
      longer vouch for the job's lock at `now`; it only reads the
      coordinator, so an expired entry stays in its map after a refusal. */
  function BeforeChunk(coordinator: JobCoordinator, context: ChunkContext, now: int): (gate: ChunkGate)
    reads coordinator
    ensures gate.Abort? <==> !LockValid(coordinator.held, context.jobName, now)
    ensures gate.Abort? ==> gate.message == "Lock expired for " + context.jobName
    ensures gate.Proceed? ==> context.jobName in coordinator.held && !coordinator.held[context.jobName].IsExpired(now)
  {
    var jobName := context.jobName;
    var canContinue := coordinator.CanContinue(jobName, now);
    if !canContinue then Abort("Lock expired for " + jobName) else Proceed
  }

  /** `afterChunk`: does nothing. */
  method AfterChunk(context: ChunkContext)
  {
  }

  /** `afterChunkError`: does nothing. */
  method AfterChunkError(context: ChunkContext)
  {
  }
}
