/** Start-up assignment of jobs to this instance (SyncScheduler): a greedy
    pass that takes locks up to the `tokens` capacity, up to two retry passes
    over the jobs still unassigned, and one fixed-delay task per job won. */
module Scheduling {

  import opened Coordination

  /** Delay between two runs of a job's dispatch task, in seconds. */
  const FixedDelaySeconds: nat := 30

  /** The lock client's answer to the attempt on `job` during pass `pass`
      (0 for the first pass, 1 and 2 for the retries). */
  type LockOracle = (nat, string) -> Acquisition

  /** A task registered with the task scheduler. */
  datatype ScheduledTask = FixedDelayTask(jobName: string, delaySeconds: nat)

  ghost predicate NoDuplicates(s: seq<string>) {
    forall i, j | 0 <= i < j < |s| :: s[i] != s[j]
  }

  /** The jobs `acquireLocks` calls `registerJob` for, in order, having
      already won `used` locks: it stops as soon as `used` reaches `tokens`. */
  function Tried(jobs: seq<string>, used: int, tokens: int, answer: LockOracle, pass: nat): (r: seq<string>)
    decreases |jobs|
  {
    if |jobs| == 0 || used == tokens then []
    else
      var used' := if answer(pass, jobs[0]).Acquired? then used + 1 else used;
      [jobs[0]] + Tried(jobs[1..], used', tokens, answer, pass)
  }

  /** The jobs among `tried` whose attempt acquired the lock, in order. */
  function Successes(tried: seq<string>, answer: LockOracle, pass: nat): (r: seq<string>)
    ensures |r| <= |tried|
    decreases |tried|
  {
    if tried == [] then []
    else if answer(pass, tried[0]).Acquired? then [tried[0]] + Successes(tried[1..], answer, pass)
    else Successes(tried[1..], answer, pass)
  }

  /** The result of one `acquireLocks` pass over `jobs` with capacity `tokens`. */
  function AcquirePass(jobs: seq<string>, tokens: int, answer: LockOracle, pass: nat): seq<string> {
    Successes(Tried(jobs, 0, tokens, answer, pass), answer, pass)
  }

  /** The lock map after `registerJob` was called for each of `tried`. */
  function RegisterAll(held: HeldLocks, tried: seq<string>, answer: LockOracle, pass: nat): HeldLocks
    decreases |tried|
  {
    if tried == [] then held
    else RegisterAll(AfterRegister(held, tried[0], answer(pass, tried[0])), tried[1..], answer, pass)
  }

  /** `jobs` without any of `taken` (`List.removeAll`). */
  function Without(jobs: seq<string>, taken: seq<string>): (r: seq<string>)
    ensures |r| <= |jobs|
    decreases |jobs|
  {
    if jobs == [] then []
    else if jobs[0] in taken then Without(jobs[1..], taken)
    else [jobs[0]] + Without(jobs[1..], taken)
  }

  /** One acquisition pass: its index, the jobs tried and the jobs won. */
  datatype Round = Round(pass: nat, tried: seq<string>, acquired: seq<string>)

  /** The state of `initialize`: the locks won so far, the `tokens` field,
      and the passes made. */
  datatype Assignment = Assignment(acquired: seq<string>, tokens: int, rounds: seq<Round>)

  /** The state after one retry pass over `rest`, the jobs still unassigned. */
  function NextPass(rest: seq<string>, st: Assignment, count: nat, answer: LockOracle): Assignment {
    var tried := Tried(rest, 0, st.tokens, answer, count);
    var more := Successes(tried, answer, count);
    Assignment(st.acquired + more, st.tokens + |more|, st.rounds + [Round(count, tried, more)])
  }

  /** The retry loop of `initialize`, entered with loop counter `count` and
      the job list `remaining` before its `removeAll`. */
  function Retry(remaining: seq<string>, st: Assignment, count: nat, answer: LockOracle): Assignment
    requires 1 <= count <= 3
    decreases 3 - count
  {
    if |st.acquired| < st.tokens && count < 3 then
      var rest := Without(remaining, st.acquired);
      if |rest| == 0 then st else Retry(rest, NextPass(rest, st, count, answer), count + 1, answer)
    else st
  }

  /** What `initialize` computes for the job list `jobs` and the configured
      capacity `tokens`. */
  function Assign(jobs: seq<string>, tokens: int, answer: LockOracle): Assignment {
    var tried := Tried(jobs, 0, tokens, answer, 0);
    var first := Successes(tried, answer, 0);
    var st := Assignment(first, tokens, [Round(0, tried, first)]);
    if |first| != tokens then Retry(jobs, st, 1, answer) else st
  }

  /** The lock map after every pass of `rounds`. */
  function RegisterRounds(held: HeldLocks, rounds: seq<Round>, answer: LockOracle): HeldLocks
    decreases |rounds|
  {
    if rounds == [] then held
    else RegisterRounds(RegisterAll(held, rounds[0].tried, answer, rounds[0].pass), rounds[1..], answer)
  }

  /** One fixed-delay task per job, in order. */
  function TasksFor(jobs: seq<string>): (r: seq<ScheduledTask>)
    ensures |r| == |jobs|
    ensures forall i | 0 <= i < |r| :: r[i] == FixedDelayTask(jobs[i], FixedDelaySeconds)
  {
    seq(|jobs|, i requires 0 <= i < |jobs| => FixedDelayTask(jobs[i], FixedDelaySeconds))
  }

  lemma TasksForSnoc(jobs: seq<string>, job: string)
    ensures TasksFor(jobs + [job]) == TasksFor(jobs) + [FixedDelayTask(job, FixedDelaySeconds)]
  {
    var l, r := TasksFor(jobs + [job]), TasksFor(jobs) + [FixedDelayTask(job, FixedDelaySeconds)];
    assert |l| == |r|;
    forall i | 0 <= i < |l| ensures l[i] == r[i] {
      if i < |jobs| {
        assert (jobs + [job])[i] == jobs[i];
      }
    }
  }

  /** How many of `tasks` run `jobName`. */
  function TaskCount(tasks: seq<ScheduledTask>, jobName: string): nat
    decreases |tasks|
  {
    if tasks == [] then 0
    else (if tasks[0].jobName == jobName then 1 else 0) + TaskCount(tasks[1..], jobName)
  }

  /** One step of a pass that has not reached its capacity: `jobs[0]` is
      tried next. */
  lemma PassStep(jobs: seq<string>, used: int, tokens: int, answer: LockOracle, pass: nat, held: HeldLocks)
    requires jobs != [] && used != tokens
    ensures var won := answer(pass, jobs[0]).Acquired?;
            var rest := Tried(jobs[1..], if won then used + 1 else used, tokens, answer, pass);
            && Successes(Tried(jobs, used, tokens, answer, pass), answer, pass)
               == (if won then [jobs[0]] else []) + Successes(rest, answer, pass)
            && RegisterAll(held, Tried(jobs, used, tokens, answer, pass), answer, pass)
               == RegisterAll(AfterRegister(held, jobs[0], answer(pass, jobs[0])), rest, answer, pass)
  {
    var won := answer(pass, jobs[0]).Acquired?;
    var rest := Tried(jobs[1..], if won then used + 1 else used, tokens, answer, pass);
    assert Tried(jobs, used, tokens, answer, pass) == [jobs[0]] + rest;
    assert ([jobs[0]] + rest)[1..] == rest;
  }

  /** Registering one more pass after `rounds`. */
  lemma {:induction false} RegisterRoundsSnoc(held: HeldLocks, rounds: seq<Round>, last: Round, answer: LockOracle)
    ensures RegisterRounds(held, rounds + [last], answer)
            == RegisterAll(RegisterRounds(held, rounds, answer), last.tried, answer, last.pass)
    decreases |rounds|
  {
    if rounds == [] {
      assert RegisterRounds(RegisterAll(held, last.tried, answer, last.pass), [], answer)
             == RegisterAll(held, last.tried, answer, last.pass);
    } else {
      assert (rounds + [last])[1..] == rounds[1..] + [last];
      RegisterRoundsSnoc(RegisterAll(held, rounds[0].tried, answer, rounds[0].pass), rounds[1..], last, answer);
    }
  }

  // ---------------------------------------------------------------------
  // Properties of one `acquireLocks` pass

  /** `acquireLocks` only tries a prefix of its input, in order. */
  lemma {:induction false} TriedIsPrefix(jobs: seq<string>, used: int, tokens: int, answer: LockOracle, pass: nat)
    ensures Tried(jobs, used, tokens, answer, pass) <= jobs
    decreases |jobs|
  {
    if |jobs| > 0 && used != tokens {
      var used' := if answer(pass, jobs[0]).Acquired? then used + 1 else used;
      TriedIsPrefix(jobs[1..], used', tokens, answer, pass);
    }
  }

  /** The jobs a pass wins are exactly those it tried whose attempt succeeded. */
  lemma {:induction false} SuccessesMembers(tried: seq<string>, answer: LockOracle, pass: nat)
    ensures forall j :: j in Successes(tried, answer, pass) <==> j in tried && answer(pass, j).Acquired?
    decreases |tried|
  {
    if tried != [] {
      SuccessesMembers(tried[1..], answer, pass);
      forall j ensures j in tried <==> j == tried[0] || j in tried[1..] {
        assert tried == [tried[0]] + tried[1..];
      }
    }
  }

  /** A pass that starts with `used` locks won never takes more than
      `tokens - used` more. */
  lemma {:induction false} PassWithinCapacity(jobs: seq<string>, used: int, tokens: int, answer: LockOracle, pass: nat)
    requires 0 <= used <= tokens
    ensures |Successes(Tried(jobs, used, tokens, answer, pass), answer, pass)| <= tokens - used
    decreases |jobs|
  {
    if |jobs| > 0 && used != tokens {
      var used' := if answer(pass, jobs[0]).Acquired? then used + 1 else used;
      PassWithinCapacity(jobs[1..], used', tokens, answer, pass);
      PassStep(jobs, used, tokens, answer, pass, map[]);
    }
  }

  /** A pass leaves jobs untried only because it reached its capacity. */
  lemma {:induction false} PassStopsOnlyWhenFull(jobs: seq<string>, used: int, tokens: int, answer: LockOracle, pass: nat)
    ensures |Tried(jobs, used, tokens, answer, pass)| < |jobs| ==>
            used + |Successes(Tried(jobs, used, tokens, answer, pass), answer, pass)| == tokens
    decreases |jobs|
  {
    if |jobs| > 0 && used != tokens {
      var used' := if answer(pass, jobs[0]).Acquired? then used + 1 else used;
      PassStopsOnlyWhenFull(jobs[1..], used', tokens, answer, pass);
      PassStep(jobs, used, tokens, answer, pass, map[]);
    }
  }

  /** Once a pass has won `tokens` locks it makes no further `registerJob`
      call: the last job it tried is the one that filled the capacity. */
  lemma {:induction false} NoCallAfterCapacity(jobs: seq<string>, used: int, tokens: int, answer: LockOracle, pass: nat)
    requires 0 <= used <= tokens
    requires |Successes(Tried(jobs, used, tokens, answer, pass), answer, pass)| == tokens - used
    requires Tried(jobs, used, tokens, answer, pass) != []
    ensures var tried := Tried(jobs, used, tokens, answer, pass); answer(pass, tried[|tried| - 1]).Acquired?
    decreases |jobs|
  {
    var won := answer(pass, jobs[0]).Acquired?;
    var used' := if won then used + 1 else used;
    var rest := Tried(jobs[1..], used', tokens, answer, pass);
    PassStep(jobs, used, tokens, answer, pass, map[]);
    assert Tried(jobs, used, tokens, answer, pass) == [jobs[0]] + rest;
    if rest != [] {
      PassWithinCapacity(jobs[1..], used', tokens, answer, pass);
      NoCallAfterCapacity(jobs[1..], used', tokens, answer, pass);
    }
  }

  /** On distinct jobs a pass wins distinct jobs. */
  lemma {:induction false} PassDistinct(jobs: seq<string>, used: int, tokens: int, answer: LockOracle, pass: nat)
    requires NoDuplicates(jobs)
    ensures NoDuplicates(Successes(Tried(jobs, used, tokens, answer, pass), answer, pass))
    decreases |jobs|
  {
    if |jobs| > 0 && used != tokens {
      var won := answer(pass, jobs[0]).Acquired?;
      var used' := if won then used + 1 else used;
      var rest := Tried(jobs[1..], used', tokens, answer, pass);
      assert NoDuplicates(jobs[1..]);
      PassDistinct(jobs[1..], used', tokens, answer, pass);
      PassStep(jobs, used, tokens, answer, pass, map[]);
      if won {
        TriedIsPrefix(jobs[1..], used', tokens, answer, pass);
        SuccessesMembers(rest, answer, pass);
        assert jobs[0] !in jobs[1..];
        assert jobs[0] !in Successes(rest, answer, pass);
      }
    }
  }

  /** `removeAll` keeps exactly the jobs not taken, and keeps them distinct. */
  lemma {:induction false} WithoutMembers(jobs: seq<string>, taken: seq<string>)
    ensures forall j :: j in Without(jobs, taken) <==> j in jobs && j !in taken
    ensures NoDuplicates(jobs) ==> NoDuplicates(Without(jobs, taken))
    decreases |jobs|
  {
    if jobs != [] {
      WithoutMembers(jobs[1..], taken);
      assert jobs == [jobs[0]] + jobs[1..];
      if NoDuplicates(jobs) {
        assert NoDuplicates(jobs[1..]);
        assert jobs[0] !in jobs[1..];
      }
    }
  }

  // ---------------------------------------------------------------------
  // Properties of `initialize`

  /** The jobs won by `rounds`, pass after pass. */
  function AcquiredIn(rounds: seq<Round>): seq<string>
    decreases |rounds|
  {
    if rounds == [] then [] else AcquiredIn(rounds[..|rounds| - 1]) + rounds[|rounds| - 1].acquired
  }

  lemma NoDuplicatesConcat(a: seq<string>, b: seq<string>)
    requires NoDuplicates(a) && NoDuplicates(b)
    requires forall j | j in b :: j !in a
    ensures NoDuplicates(a + b)
  {
    var c := a + b;
    forall i, k | 0 <= i < k < |c| ensures c[i] != c[k] {
      if i < |a| && k >= |a| {
        assert c[k] == b[k - |a|];
        assert c[k] in b;
      }
    }
  }

  /** The pass structure the retry loop builds on `st`, and the free-token
      count it keeps. */
  lemma {:induction false} RetryStructure(remaining: seq<string>, st: Assignment, count: nat, answer: LockOracle)
    requires 1 <= count <= 3 && |st.rounds| == count
    requires st.acquired == AcquiredIn(st.rounds)
    ensures var r := Retry(remaining, st, count, answer);
            && count <= |r.rounds| <= 3
            && r.rounds[..count] == st.rounds
            && (forall i | count <= i < |r.rounds| :: r.rounds[i].pass == i)
            && r.acquired == AcquiredIn(r.rounds)
            && r.tokens - |r.acquired| == st.tokens - |st.acquired|
    decreases 3 - count
  {
    var r := Retry(remaining, st, count, answer);
    if |st.acquired| < st.tokens && count < 3 {
      var rest := Without(remaining, st.acquired);
      if |rest| > 0 {
        var next := NextPass(rest, st, count, answer);
        assert r == Retry(rest, next, count + 1, answer);
        assert next.rounds[..count] == st.rounds;
        RetryStructure(rest, next, count + 1, answer);
        assert r.rounds[..count] == r.rounds[..count + 1][..count];
      } else {
        assert r == st;
      }
    } else {
      assert r == st;
    }
  }

  /** The retry loop only adds jobs it was given. */
  lemma {:induction false} RetryOnlyConfigured(jobs: seq<string>, remaining: seq<string>, st: Assignment, count: nat, answer: LockOracle)
    requires 1 <= count <= 3
    requires forall j | j in remaining :: j in jobs
    requires forall j | j in st.acquired :: j in jobs
    ensures forall j | j in Retry(remaining, st, count, answer).acquired :: j in jobs
    decreases 3 - count
  {
    var r := Retry(remaining, st, count, answer);
    if |st.acquired| < st.tokens && count < 3 {
      var rest := Without(remaining, st.acquired);
      if |rest| > 0 {
        var tried := Tried(rest, 0, st.tokens, answer, count);
        var more := Successes(tried, answer, count);
        var next := NextPass(rest, st, count, answer);
        WithoutMembers(remaining, st.acquired);
        TriedIsPrefix(rest, 0, st.tokens, answer, count);
        SuccessesMembers(tried, answer, count);
        assert next.acquired == st.acquired + more;
        assert forall j | j in more :: j in jobs;
        assert r == Retry(rest, next, count + 1, answer);
        RetryOnlyConfigured(jobs, rest, next, count + 1, answer);
      } else {
        assert r == st;
      }
    } else {
      assert r == st;
    }
  }

  /** The retry loop never acquires a job twice when the jobs it was given
      are distinct. */
  lemma {:induction false} RetryDistinct(remaining: seq<string>, st: Assignment, count: nat, answer: LockOracle)
    requires 1 <= count <= 3
    requires NoDuplicates(remaining) && NoDuplicates(st.acquired)
    ensures NoDuplicates(Retry(remaining, st, count, answer).acquired)
    decreases 3 - count
  {
    var r := Retry(remaining, st, count, answer);
    if |st.acquired| < st.tokens && count < 3 {
      var rest := Without(remaining, st.acquired);
      if |rest| > 0 {
        var tried := Tried(rest, 0, st.tokens, answer, count);
        var more := Successes(tried, answer, count);
        var next := NextPass(rest, st, count, answer);
        WithoutMembers(remaining, st.acquired);
        TriedIsPrefix(rest, 0, st.tokens, answer, count);
        SuccessesMembers(tried, answer, count);
        PassDistinct(rest, 0, st.tokens, answer, count);
        NoDuplicatesConcat(st.acquired, more);
        assert next.acquired == st.acquired + more;
        assert r == Retry(rest, next, count + 1, answer);
        RetryDistinct(rest, next, count + 1, answer);
      } else {
        assert r == st;
      }
    } else {
      assert r == st;
    }
  }

  /** The retry loop stops before its third pass with tokens still free
      only when every job it was given has been acquired. */
  lemma {:induction false} RetryStopsEarlyWhenNoneLeft(jobs: seq<string>, remaining: seq<string>, st: Assignment, count: nat, answer: LockOracle)
    requires 1 <= count <= 3 && |st.rounds| == count
    requires forall j | j in jobs :: j in remaining || j in st.acquired
    ensures var r := Retry(remaining, st, count, answer);
            |r.rounds| < 3 && |r.acquired| < r.tokens ==> forall j | j in jobs :: j in r.acquired
    decreases 3 - count
  {
    var r := Retry(remaining, st, count, answer);
    if |st.acquired| < st.tokens && count < 3 {
      var rest := Without(remaining, st.acquired);
      WithoutMembers(remaining, st.acquired);
      if |rest| > 0 {
        var next := NextPass(rest, st, count, answer);
        assert st.acquired <= next.acquired && |next.rounds| == count + 1;
        assert r == Retry(rest, next, count + 1, answer);
        RetryStopsEarlyWhenNoneLeft(jobs, rest, next, count + 1, answer);
      } else {
        assert r == st;
      }
    } else {
      assert r == st;
    }
  }

  /** Every pass of `rounds` from index `from` on tries only jobs that no
      earlier pass acquired. */
  ghost predicate TriesOnlyUnacquired(rounds: seq<Round>, from: nat) {
    forall i | from <= i < |rounds| :: forall j | j in rounds[i].tried :: j !in AcquiredIn(rounds[..i])
  }

  /** Each retry pass tries only jobs that no earlier pass acquired. */
  lemma {:induction false} RetryTriesOnlyUnacquired(remaining: seq<string>, st: Assignment, count: nat, answer: LockOracle)
    requires 1 <= count <= 3 && |st.rounds| == count
    requires st.acquired == AcquiredIn(st.rounds)
    ensures TriesOnlyUnacquired(Retry(remaining, st, count, answer).rounds, count)
    decreases 3 - count
  {
    var r := Retry(remaining, st, count, answer);
    if |st.acquired| < st.tokens && count < 3 {
      var rest := Without(remaining, st.acquired);
      if |rest| > 0 {
        var tried := Tried(rest, 0, st.tokens, answer, count);
        var next := NextPass(rest, st, count, answer);
        assert r == Retry(rest, next, count + 1, answer);
        assert next.rounds[..count] == st.rounds;
        RetryStructure(rest, next, count + 1, answer);
        RetryTriesOnlyUnacquired(rest, next, count + 1, answer);
        assert r.rounds[..count] == st.rounds by {
          assert r.rounds[..count] == r.rounds[..count + 1][..count];
        }
        forall j | j in r.rounds[count].tried ensures j !in AcquiredIn(r.rounds[..count]) {
          assert r.rounds[count] == next.rounds[count];
          TriedIsPrefix(rest, 0, st.tokens, answer, count);
          assert j in rest;
          WithoutMembers(remaining, st.acquired);
        }
      } else {
        assert r == st;
      }
    } else {
      assert r == st;
    }
  }

  /** No retry pass is an empty one: a pass is made only while tokens are
      free and some job is left, so it tries at least one job. */
  lemma {:induction false} RetryPassesTryAJob(remaining: seq<string>, st: Assignment, count: nat, answer: LockOracle)
    requires 1 <= count <= 3 && |st.rounds| == count
    requires st.acquired == AcquiredIn(st.rounds)
    ensures var r := Retry(remaining, st, count, answer);
            forall i | count <= i < |r.rounds| :: r.rounds[i].tried != []
    decreases 3 - count
  {
    var r := Retry(remaining, st, count, answer);
    if |st.acquired| < st.tokens && count < 3 {
      var rest := Without(remaining, st.acquired);
      if |rest| > 0 {
        var next := NextPass(rest, st, count, answer);
        assert r == Retry(rest, next, count + 1, answer);
        assert next.rounds[..count] == st.rounds;
        RetryStructure(rest, next, count + 1, answer);
        RetryPassesTryAJob(rest, next, count + 1, answer);
        assert r.rounds[count] == r.rounds[..count + 1][count] == next.rounds[count];
        assert next.rounds[count].tried == Tried(rest, 0, st.tokens, answer, count);
        assert Tried(rest, 0, st.tokens, answer, count)[0] == rest[0];
      } else {
        assert r == st;
      }
    } else {
      assert r == st;
    }
  }

  /** The state `initialize` is in when it reaches its retry loop. */
  lemma FirstPass(jobs: seq<string>, tokens: int, answer: LockOracle)
    ensures var tried := Tried(jobs, 0, tokens, answer, 0);
            var first := Successes(tried, answer, 0);
            && AcquiredIn([Round(0, tried, first)]) == first
            && (forall j | j in first :: j in jobs)
            && (NoDuplicates(jobs) ==> NoDuplicates(first))
  {
    var tried := Tried(jobs, 0, tokens, answer, 0);
    var first := Successes(tried, answer, 0);
    TriedIsPrefix(jobs, 0, tokens, answer, 0);
    SuccessesMembers(tried, answer, 0);
    assert forall j | j in tried :: j in jobs;
    assert [Round(0, tried, first)][..0] == [];
    if NoDuplicates(jobs) {
      PassDistinct(jobs, 0, tokens, answer, 0);
    }
  }

  /** Pass structure of `initialize`: a first greedy pass, then at most two
      retry passes, none at all when the first pass filled the capacity;
      the locks won are those of every pass together. */
  lemma AssignRounds(jobs: seq<string>, tokens: int, answer: LockOracle)
    ensures var r := Assign(jobs, tokens, answer);
            && 1 <= |r.rounds| <= 3
            && r.rounds[0] == Round(0, Tried(jobs, 0, tokens, answer, 0), AcquirePass(jobs, tokens, answer, 0))
            && (forall i | 0 <= i < |r.rounds| :: r.rounds[i].pass == i)
            && r.acquired == AcquiredIn(r.rounds)
            && (|AcquirePass(jobs, tokens, answer, 0)| == tokens ==> |r.rounds| == 1)
            && (tokens >= 0 ==> |r.rounds[0].acquired| <= tokens)
  {
    var tried := Tried(jobs, 0, tokens, answer, 0);
    var first := Successes(tried, answer, 0);
    var st := Assignment(first, tokens, [Round(0, tried, first)]);
    FirstPass(jobs, tokens, answer);
    if tokens >= 0 {
      PassWithinCapacity(jobs, 0, tokens, answer, 0);
    }
    if |first| != tokens {
      RetryStructure(jobs, st, 1, answer);
      var r := Retry(jobs, st, 1, answer);
      assert r.rounds[0] == r.rounds[..1][0];
    }
  }

  /** Each retry pass raises `tokens` by as many locks as it adds, so the
      number of free tokens left by the first pass never changes: the
      capacity is a soft cap once retries start. */
  lemma AssignFreeTokens(jobs: seq<string>, tokens: int, answer: LockOracle)
    ensures var r := Assign(jobs, tokens, answer);
            r.tokens - |r.acquired| == tokens - |AcquirePass(jobs, tokens, answer, 0)|
  {
    var tried := Tried(jobs, 0, tokens, answer, 0);
    var first := Successes(tried, answer, 0);
    FirstPass(jobs, tokens, answer);
    if |first| != tokens {
      RetryStructure(jobs, Assignment(first, tokens, [Round(0, tried, first)]), 1, answer);
    }
  }

  /** Every lock won is for a configured job, no job is acquired twice when
      the job names are distinct, and fewer than three passes with tokens
      still free means every job was acquired (the retry loop stops early
      only when none is left). */
  lemma AssignMembers(jobs: seq<string>, tokens: int, answer: LockOracle)
    ensures var r := Assign(jobs, tokens, answer);
            && (forall j | j in r.acquired :: j in jobs)
            && (NoDuplicates(jobs) ==> NoDuplicates(r.acquired))
            && (|r.rounds| < 3 && |r.acquired| < r.tokens ==> forall j | j in jobs :: j in r.acquired)
  {
    var tried := Tried(jobs, 0, tokens, answer, 0);
    var first := Successes(tried, answer, 0);
    FirstPass(jobs, tokens, answer);
    if |first| != tokens {
      var st := Assignment(first, tokens, [Round(0, tried, first)]);
      RetryOnlyConfigured(jobs, jobs, st, 1, answer);
      if NoDuplicates(jobs) {
        RetryDistinct(jobs, st, 1, answer);
      }
      RetryStopsEarlyWhenNoneLeft(jobs, jobs, st, 1, answer);
    } else {
      PassStopsOnlyWhenFull(jobs, 0, tokens, answer, 0);
    }
  }

  /** A retry pass tries only jobs that no earlier pass acquired. */
  lemma AssignRetriesTryOnlyUnacquired(jobs: seq<string>, tokens: int, answer: LockOracle)
    ensures TriesOnlyUnacquired(Assign(jobs, tokens, answer).rounds, 1)
  {
    var tried := Tried(jobs, 0, tokens, answer, 0);
    var first := Successes(tried, answer, 0);
    FirstPass(jobs, tokens, answer);
    if |first| != tokens {
      RetryTriesOnlyUnacquired(jobs, Assignment(first, tokens, [Round(0, tried, first)]), 1, answer);
    }
  }

  /** Every pass of `rounds` from index `from` on tries only jobs of `jobs`. */
  ghost predicate TriesOnlyFrom(rounds: seq<Round>, from: nat, jobs: seq<string>) {
    forall i | from <= i < |rounds| :: forall j | j in rounds[i].tried :: j in jobs
  }

  /** A retry pass tries only jobs the loop was given. */
  lemma {:induction false} RetryTriesOnlyGiven(remaining: seq<string>, st: Assignment, count: nat, answer: LockOracle)
    requires 1 <= count <= 3 && |st.rounds| == count
    requires st.acquired == AcquiredIn(st.rounds)
    ensures TriesOnlyFrom(Retry(remaining, st, count, answer).rounds, count, remaining)
    decreases 3 - count
  {
    var r := Retry(remaining, st, count, answer);
    if |st.acquired| < st.tokens && count < 3 {
      var rest := Without(remaining, st.acquired);
      if |rest| > 0 {
        var next := NextPass(rest, st, count, answer);
        assert r == Retry(rest, next, count + 1, answer);
        assert next.rounds[..count] == st.rounds;
        RetryStructure(rest, next, count + 1, answer);
        RetryTriesOnlyGiven(rest, next, count + 1, answer);
        WithoutMembers(remaining, st.acquired);
        forall i | count <= i < |r.rounds| ensures forall j | j in r.rounds[i].tried :: j in remaining {
          if i == count {
            assert r.rounds[count] == r.rounds[..count + 1][count] == next.rounds[count];
            TriedIsPrefix(rest, 0, st.tokens, answer, count);
          }
        }
      } else {
        assert r == st;
      }
    } else {
      assert r == st;
    }
  }

  /** The retry loop stops once no unacquired job is left: every retry pass
      tries at least one job, it tries only configured jobs, and the first
      job it tries is a configured job that no earlier pass acquired. */
  lemma AssignRetriesOnlyWhileJobsLeft(jobs: seq<string>, tokens: int, answer: LockOracle)
    ensures var r := Assign(jobs, tokens, answer);
            forall i | 1 <= i < |r.rounds| ::
              && r.rounds[i].tried != []
              && (forall j | j in r.rounds[i].tried :: j in jobs)
              && r.rounds[i].tried[0] in jobs
              && r.rounds[i].tried[0] !in AcquiredIn(r.rounds[..i])
  {
    var tried := Tried(jobs, 0, tokens, answer, 0);
    var first := Successes(tried, answer, 0);
    var st := Assignment(first, tokens, [Round(0, tried, first)]);
    FirstPass(jobs, tokens, answer);
    AssignRetriesTryOnlyUnacquired(jobs, tokens, answer);
    if |first| != tokens {
      RetryPassesTryAJob(jobs, st, 1, answer);
      RetryTriesOnlyGiven(jobs, st, 1, answer);
    }
  }

  /** When every lock is free, a pass takes the first `tokens - used` jobs. */
  lemma {:induction false} AllFreePass(jobs: seq<string>, used: int, tokens: int, answer: LockOracle, pass: nat)
    requires forall j | j in jobs :: answer(pass, j).Acquired?
    requires 0 <= used <= tokens && tokens - used <= |jobs|
    ensures Successes(Tried(jobs, used, tokens, answer, pass), answer, pass) == jobs[..tokens - used]
    decreases |jobs|
  {
    if used != tokens {
      assert jobs[0] in jobs;
      assert forall j | j in jobs[1..] :: j in jobs;
      AllFreePass(jobs[1..], used + 1, tokens, answer, pass);
      PassStep(jobs, used, tokens, answer, pass, map[]);
      assert jobs[..tokens - used] == [jobs[0]] + jobs[1..][..tokens - used - 1];
    }
  }

  /** With every lock free and at least `tokens` jobs, `initialize` takes
      exactly the first `tokens` jobs in one pass. */
  lemma AllFreeFillsCapacity(jobs: seq<string>, tokens: int, answer: LockOracle)
    requires forall j | j in jobs :: answer(0, j).Acquired?
    requires 0 <= tokens <= |jobs|
    ensures var r := Assign(jobs, tokens, answer);
            r.acquired == jobs[..tokens] && |r.rounds| == 1 && r.tokens == tokens
  {
    AllFreePass(jobs, 0, tokens, answer, 0);
  }

  /** The capacity is soft: with two tokens, a first pass that finds only
      one free lock leaves a token free, and the retry pass may then take two
      more, because it is again bounded by the whole `tokens` field. */
  lemma RetryCanExceedCapacity()
    ensures var answer: LockOracle := (pass: nat, job: string) =>
              if pass == 0 && job != "a" then NotAcquired else Acquired(LockItem(job, 0, 0, LeaseDurationSeconds));
            var r := Assign(["a", "b", "c"], 2, answer);
            r.acquired == ["a", "b", "c"] && r.tokens == 4
  {
    var answer: LockOracle := (pass: nat, job: string) =>
      if pass == 0 && job != "a" then NotAcquired else Acquired(LockItem(job, 0, 0, LeaseDurationSeconds));
    assert AcquirePass(["a", "b", "c"], 2, answer, 0) == ["a"];
    assert Without(["a", "b", "c"], ["a"]) == ["b", "c"];
    assert AcquirePass(["b", "c"], 2, answer, 1) == ["b", "c"];
  }

  /** On distinct acquired jobs, every acquired job gets exactly one task and
      no other job gets one. */
  lemma {:induction false} OneTaskPerJob(jobs: seq<string>, job: string)
    requires NoDuplicates(jobs)
    ensures TaskCount(TasksFor(jobs), job) == if job in jobs then 1 else 0
    decreases |jobs|
  {
    if jobs != [] {
      assert TasksFor(jobs)[1..] == TasksFor(jobs[1..]);
      assert NoDuplicates(jobs[1..]);
      OneTaskPerJob(jobs[1..], job);
      assert jobs == [jobs[0]] + jobs[1..];
      assert jobs[0] !in jobs[1..];
    }
  }

  /** `initialize` schedules exactly one task per acquired job, and none for
      a job it did not acquire, when the configured job names are distinct. */
  lemma InitializeSchedulesEachAcquiredJobOnce(jobs: seq<string>, tokens: int, answer: LockOracle, job: string)
    requires NoDuplicates(jobs)
    ensures var a := Assign(jobs, tokens, answer);
            TaskCount(TasksFor(a.acquired), job) == if job in a.acquired then 1 else 0
  {
    AssignMembers(jobs, tokens, answer);
    OneTaskPerJob(Assign(jobs, tokens, answer).acquired, job);
  }

  class SyncScheduler {
    var tokens: int
    const coordinator: JobCoordinator
    /** The tasks handed to the task scheduler, oldest first. */
    var scheduled: seq<ScheduledTask>

    constructor (tokens: int, coordinator: JobCoordinator)
      ensures this.tokens == tokens && this.coordinator == coordinator && scheduled == []
    {
      this.tokens := tokens;
      this.coordinator := coordinator;
      scheduled := [];
    }

    /** One greedy pass: tries the jobs in order and stops once `tokens`
        locks have been won in this pass. */
    method AcquireLocks(jobsToAcquireLockFor: seq<string>, answer: LockOracle, pass: nat) returns (locksAcquired: seq<string>)
      modifies coordinator
      ensures locksAcquired == AcquirePass(jobsToAcquireLockFor, tokens, answer, pass)
      ensures coordinator.held == RegisterAll(old(coordinator.held), Tried(jobsToAcquireLockFor, 0, tokens, answer, pass), answer, pass)
    {
      ghost var jobs := jobsToAcquireLockFor;
      ghost var held0 := coordinator.held;
      locksAcquired := [];
      var usedTokens := 0;
      var i := 0;
      while i < |jobsToAcquireLockFor|
        invariant 0 <= i <= |jobs|
        invariant AcquirePass(jobs, tokens, answer, pass)
                  == locksAcquired + Successes(Tried(jobs[i..], usedTokens, tokens, answer, pass), answer, pass)
        invariant RegisterAll(held0, Tried(jobs, 0, tokens, answer, pass), answer, pass)
                  == RegisterAll(coordinator.held, Tried(jobs[i..], usedTokens, tokens, answer, pass), answer, pass)
      {
        if usedTokens == tokens {
          break;
        }
        var job := jobsToAcquireLockFor[i];
        assert jobs[i..][1..] == jobs[i + 1..];
        PassStep(jobs[i..], usedTokens, tokens, answer, pass, coordinator.held);
        ghost var before := locksAcquired;
        var isLockAcquired := coordinator.RegisterJob(job, answer(pass, job));
        if isLockAcquired {
          locksAcquired := locksAcquired + [job];
          usedTokens := usedTokens + 1;
        }
        assert before + ((if isLockAcquired then [job] else []) + Successes(Tried(jobs[i + 1..], usedTokens, tokens, answer, pass), answer, pass))
               == locksAcquired + Successes(Tried(jobs[i + 1..], usedTokens, tokens, answer, pass), answer, pass);
        i := i + 1;
      }
      if i == |jobs| {
        assert jobs[i..] == [];
      }
    }

    /** Assigns jobs at start-up and schedules one task per acquired job. */
    method Initialize(allJobs: seq<string>, answer: LockOracle) returns (acquiredLocks: seq<string>)
      modifies this, coordinator
      ensures var a := Assign(allJobs, old(tokens), answer);
              && acquiredLocks == a.acquired
              && tokens == a.tokens
              && coordinator.held == RegisterRounds(old(coordinator.held), a.rounds, answer)
              && scheduled == old(scheduled) + TasksFor(a.acquired)
    {
      ghost var tried := Tried(allJobs, 0, tokens, answer, 0);
      acquiredLocks := AcquireLocks(allJobs, answer, 0);
      ghost var first := Round(0, tried, acquiredLocks);
      RegisterRoundsSnoc(old(coordinator.held), [], first, answer);
      if |acquiredLocks| != tokens {
        acquiredLocks := RetryAcquisition(allJobs, acquiredLocks, [first], answer, old(coordinator.held));
      }
      ScheduleTasks(acquiredLocks);
    }

    /** The retry loop of `initialize`: up to two more passes over the jobs
        not yet acquired, each raising `tokens` by what it won. */
    method RetryAcquisition(allJobs: seq<string>, acquired: seq<string>, ghost rounds0: seq<Round>, answer: LockOracle,
                            ghost held0: HeldLocks)
      returns (acquiredLocks: seq<string>)
      requires coordinator.held == RegisterRounds(held0, rounds0, answer)
      modifies this`tokens, coordinator
      ensures var a := Retry(allJobs, Assignment(acquired, old(tokens), rounds0), 1, answer);
              && acquiredLocks == a.acquired
              && tokens == a.tokens
              && coordinator.held == RegisterRounds(held0, a.rounds, answer)
    {
      ghost var target := Retry(allJobs, Assignment(acquired, tokens, rounds0), 1, answer);
      ghost var rounds := rounds0;
      var jobs := allJobs;
      acquiredLocks := acquired;
      var count := 1;
      while |acquiredLocks| < tokens && count < 3
        invariant 1 <= count <= 3
        invariant Retry(jobs, Assignment(acquiredLocks, tokens, rounds), count, answer) == target
        invariant coordinator.held == RegisterRounds(held0, rounds, answer)
        decreases 3 - count
      {
        ghost var previous := jobs;
        jobs := Without(jobs, acquiredLocks);
        if |jobs| == 0 {
          break;
        }
        ghost var tried := Tried(jobs, 0, tokens, answer, count);
        ghost var next := NextPass(jobs, Assignment(acquiredLocks, tokens, rounds), count, answer);
        assert Retry(previous, Assignment(acquiredLocks, tokens, rounds), count, answer) == Retry(jobs, next, count + 1, answer);
        var acquiredLocksThisTry := AcquireLocks(jobs, answer, count);
        RegisterRoundsSnoc(held0, rounds, Round(count, tried, acquiredLocksThisTry), answer);
        rounds := rounds + [Round(count, tried, acquiredLocksThisTry)];
        tokens := tokens + |acquiredLocksThisTry|;
        acquiredLocks := acquiredLocks + acquiredLocksThisTry;
        count := count + 1;
        assert Assignment(acquiredLocks, tokens, rounds) == next;
      }
    }

    /** The closing loop of `initialize`: one fixed-delay task per job. */
    method ScheduleTasks(jobs: seq<string>)
      modifies this`scheduled
      ensures scheduled == old(scheduled) + TasksFor(jobs)
    {
      var k := 0;
      while k < |jobs|
        invariant 0 <= k <= |jobs|
        invariant scheduled == old(scheduled) + TasksFor(jobs[..k])
      {
        assert jobs[..k + 1] == jobs[..k] + [jobs[k]];
        TasksForSnoc(jobs[..k], jobs[k]);
        scheduled := scheduled + [FixedDelayTask(jobs[k], FixedDelaySeconds)];
        k := k + 1;
      }
      assert jobs[..k] == jobs;
    }
  }
}
