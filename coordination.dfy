/** The process-local view of the DynamoDB job locks this instance holds
    (DynamoDBJobCoordinator). The lock client itself is not modelled: each
    acquisition attempt arrives as its answer, and a lock item carries the
    lease it was granted so that its expiry can be checked against a clock. */
module Coordination {

  import opened Wrappers

  /** The lease every lock is acquired with, in seconds. */
  const LeaseDurationSeconds: nat := 10

  /** A lock item as the lock client returns it from a successful acquisition. */
  datatype LockItem = LockItem(
    partitionKey: string,
    recordVersionNumber: nat,
    lookupTime: int,
    leaseDuration: nat)
  {
    /** The lock client's rule: an item has expired once more than its lease
        duration has passed since it was looked up. */
    predicate IsExpired(now: int) {
      now - lookupTime > leaseDuration
    }
  }

  /** The answer to one `tryAcquireLock` call: the wait was interrupted, the
      lock is held elsewhere (empty optional), or the lock was acquired. */
  datatype Acquisition = Interrupted | NotAcquired | Acquired(item: LockItem)

  /** The map from job name to the lock item held for it. */
  type HeldLocks = map<string, LockItem>

  /** `a` and `b` agree on every key other than `key`. */
  ghost predicate SameExcept(a: HeldLocks, b: HeldLocks, key: string) {
    forall k | k != key :: (k in a <==> k in b) && (k in a ==> a[k] == b[k])
  }

  /** The lock of `jobName` is recorded and its lease has not run out. */
  ghost predicate LockValid(held: HeldLocks, jobName: string, now: int) {
    jobName in held && !held[jobName].IsExpired(now)
  }

  /** The map after `registerJob(jobName)` received `attempt`. */
  function AfterRegister(held: HeldLocks, jobName: string, attempt: Acquisition): (r: HeldLocks)
    ensures attempt.Acquired? ==> jobName in r && r[jobName] == attempt.item
    ensures !attempt.Acquired? ==> r == held
    ensures SameExcept(r, held, jobName)
  {
    match attempt
    case Acquired(item) => held[jobName := item]
    case _ => held
  }

  /** The map after `unregisterJob(jobName)`. */
  function AfterUnregister(held: HeldLocks, jobName: string): (r: HeldLocks)
    ensures jobName !in r
    ensures jobName !in held ==> r == held
    ensures SameExcept(r, held, jobName)
  {
    held - {jobName}
  }

  class JobCoordinator {
    /** jobNameToHeldLockMap */
    var held: HeldLocks

    constructor ()
      ensures held == map[]
    {
      held := map[];
    }

    /** Tries once to acquire the lock of `jobName`; `attempt` is the lock
        client's answer. A success records the item, replacing any entry
        (an expired one included); anything else leaves the map alone. */
    method RegisterJob(jobName: string, attempt: Acquisition) returns (registered: bool)
      modifies this
      ensures registered <==> attempt.Acquired?
      ensures registered ==> jobName in held && held[jobName] == attempt.item
      ensures !registered ==> held == old(held)
      ensures SameExcept(held, old(held), jobName)
      ensures held == AfterRegister(old(held), jobName, attempt)
    {
      if attempt.Interrupted? {
        return false;
      }
      if attempt.Acquired? {
        held := held[jobName := attempt.item];
        return true;
      }
      return false;
    }

    /** Whether the job may go on running: its lock is recorded and not
        expired. Expired entries are kept; this only reads the map. */
    function CanContinue(jobName: string, now: int): (ok: bool)
      reads this
      ensures jobName !in held ==> !ok
      ensures jobName in held && held[jobName].IsExpired(now) ==> !ok
      ensures ok <==> LockValid(held, jobName, now)
    {
      if jobName in held then
        if held[jobName].IsExpired(now) then false else true
      else
        false
    }

    /** Removes the entry of `jobName` and hands the removed item to the lock
        client for release; `released` is that item, or None when there was
        no entry and no release call was made. The release outcome is only
        logged, so it has no bearing on the new state. */
    method UnregisterJob(jobName: string) returns (released: Option<LockItem>)
      modifies this
      ensures jobName !in held
      ensures released == (if jobName in old(held) then Some(old(held)[jobName]) else None)
      ensures released.None? ==> held == old(held)
      ensures SameExcept(held, old(held), jobName)
      ensures held == AfterUnregister(old(held), jobName)
    {
      if jobName in held {
        released := Some(held[jobName]);
        held := held - {jobName};
      } else {
        released := None;
      }
    }
  }

  /** One state-changing call on the coordinator. `canContinue` changes
      nothing, so it never appears in a history. */
  datatype LockEvent = Register(jobName: string, attempt: Acquisition) | Unregister(jobName: string)

  function Apply(held: HeldLocks, event: LockEvent): HeldLocks {
    match event
    case Register(j, attempt) => AfterRegister(held, j, attempt)
    case Unregister(j) => AfterUnregister(held, j)
  }

  /** The map after a history of calls, oldest first. */
  function Replay(held: HeldLocks, events: seq<LockEvent>): HeldLocks
    decreases |events|
  {
    if events == [] then held else Replay(Apply(held, events[0]), events[1..])
  }

  /** Some call in `events` acquired the lock of `jobName`. */
  predicate Reacquires(events: seq<LockEvent>, jobName: string) {
    exists i | 0 <= i < |events| :: events[i].Register? && events[i].jobName == jobName && events[i].attempt.Acquired?
  }

  /** Some call in `events` acquired or unregistered the lock of `jobName`. */
  predicate Touches(events: seq<LockEvent>, jobName: string) {
    exists i | 0 <= i < |events| :: events[i].jobName == jobName && (events[i].Unregister? || events[i].attempt.Acquired?)
  }

  /** Without a new acquisition, the entry of `jobName` can only stay as it
      was or disappear. */
  lemma {:induction false} EntryNeverReplaced(held: HeldLocks, events: seq<LockEvent>, jobName: string)
    requires !Reacquires(events, jobName)
    ensures var r := Replay(held, events); jobName in r ==> jobName in held && r[jobName] == held[jobName]
    decreases |events|
  {
    if events != [] {
      var next := Apply(held, events[0]);
      assert !Reacquires(events[1..], jobName) by {
        forall i | 0 <= i < |events[1..]|
          ensures !(events[1..][i].Register? && events[1..][i].jobName == jobName && events[1..][i].attempt.Acquired?)
        {
          assert events[1..][i] == events[i + 1];
        }
      }
      EntryNeverReplaced(next, events[1..], jobName);
      if events[0].Register? && events[0].jobName == jobName {
        assert !events[0].attempt.Acquired?;
      }
    }
  }

  /** Once `canContinue(jobName)` is false it stays false at every later
      time, whatever else happens, until a `registerJob(jobName)` succeeds. */
  lemma NoFlipBackWithoutRegister(held: HeldLocks, events: seq<LockEvent>, jobName: string, t: int, later: int)
    requires !LockValid(held, jobName, t)
    requires t <= later
    requires !Reacquires(events, jobName)
    ensures !LockValid(Replay(held, events), jobName, later)
  {
    EntryNeverReplaced(held, events, jobName);
  }

  /** The entry acquired by `registerJob` survives every history that neither
      acquires nor unregisters that job again. */
  lemma {:induction false} EntryKept(held: HeldLocks, events: seq<LockEvent>, jobName: string)
    requires jobName in held
    requires !Touches(events, jobName)
    ensures var r := Replay(held, events); jobName in r && r[jobName] == held[jobName]
    decreases |events|
  {
    if events != [] {
      var next := Apply(held, events[0]);
      assert !(events[0].jobName == jobName && (events[0].Unregister? || events[0].attempt.Acquired?));
      assert !Touches(events[1..], jobName) by {
        forall i | 0 <= i < |events[1..]|
          ensures !(events[1..][i].jobName == jobName && (events[1..][i].Unregister? || events[1..][i].attempt.Acquired?))
        {
          assert events[1..][i] == events[i + 1];
        }
      }
      EntryKept(next, events[1..], jobName);
    }
  }

  /** After a successful `registerJob(jobName)`, `canContinue(jobName)` is true
      exactly as long as the acquired item has not expired, as long as the job
      is neither unregistered nor acquired anew. */
  lemma ValidUntilExpiry(held: HeldLocks, item: LockItem, events: seq<LockEvent>, jobName: string, now: int)
    requires !Touches(events, jobName)
    ensures LockValid(Replay(AfterRegister(held, jobName, Acquired(item)), events), jobName, now) <==> !item.IsExpired(now)
  {
    EntryKept(AfterRegister(held, jobName, Acquired(item)), events, jobName);
  }
}
