/**
 The publish jobs of one embedding profile: a leased queue with one job per source, where
 `attempts` is the token a claim hands out. Each function is one SQL statement.

 A profile has at most one job per source, so jobs are keyed by source; instants are
 integers.
 */
module PublishJobs {
  import opened Wrappers
  import opened IntegerSets

  const LEASE: int := 660

  datatype Status = Queued | Running | Failed | Completed

  datatype Job = Job(
    status: Status,
    attempts: nat,
    lastError: Option<string>,
    scheduledAt: int,
    startedAt: Option<int>,
    lease: Option<int>,
    completedAt: Option<int>
  )

  type Jobs = map<int, Job>

  // ----------------------------------------------------------------- one job, one statement

  /** Insert a queued job, or update it on conflict; only a completed job starts over. */
  function EnqueueJob(job: Option<Job>, now: int): Job {
    if job.None? then Job(Queued, 0, None, now, None, None, None)
    else
      var j := job.value;
      var active := j.status != Completed;
      Job(
        if active then j.status else Queued,
        if active then j.attempts else 0,
        if j.status == Running || j.status == Failed then j.lastError else None,
        if active then j.scheduledAt else now,
        if j.status == Running then j.startedAt else None,
        if j.status == Running then j.lease else None,
        None)
  }

  predicate LeaseExpired(j: Job, now: int) {
    j.status == Running && j.lease.Some? && j.lease.value <= now
  }

  function RecoverJob(j: Job, now: int): Job {
    if LeaseExpired(j, now)
    then Job(Failed, j.attempts, Some("semantic hnsw publish lease expired"), now, None, None, None)
    else j
  }

  function ResetJob(j: Job, now: int): Job {
    if j.status == Running then j.(status := Queued, scheduledAt := now, startedAt := None, lease := None) else j
  }

  predicate Claimable(j: Job) {
    j.status == Queued || j.status == Failed
  }

  /** The row a claim's SELECT may return. */
  predicate Due(j: Job, now: int) {
    Claimable(j) && j.scheduledAt <= now
  }

  function ClaimedJob(j: Job, now: int): Job {
    Job(Running, j.attempts + 1, None, j.scheduledAt, Some(now), Some(now + LEASE), None)
  }

  /** The guard of renew and finalize. */
  predicate Owns(j: Job, token: nat) {
    j.status == Running && j.attempts == token
  }

  /** The guard of fail and requeue, which also undo a completion that could not be activated. */
  predicate OwnedOrCompleted(j: Job, token: nat) {
    (j.status == Running || j.status == Completed) && j.attempts == token
  }

  function RenewJob(j: Job, token: nat, now: int): Job {
    if Owns(j, token) then j.(lease := Some(now + LEASE)) else j
  }

  function FailJob(j: Job, token: nat, cause: string, retryAt: int): Job {
    if OwnedOrCompleted(j, token)
    then j.(status := Failed, lastError := Some(cause), scheduledAt := retryAt, lease := None, completedAt := None)
    else j
  }

  function RequeueJob(j: Job, token: nat, now: int): Job {
    if OwnedOrCompleted(j, token)
    then Job(Queued, if j.attempts > 0 then j.attempts - 1 else 0, None, now, None, None, None)
    else j
  }

  function CompleteJob(j: Job, token: nat, now: int): Job {
    if Owns(j, token) then j.(status := Completed, lastError := None, lease := None, completedAt := Some(now)) else j
  }

  // ----------------------------------------------------------- the published index state

  /** Asset and indexed generation of one source's semantic state. */
  datatype Generations = Generations(asset: int, indexed: int)

  /** Publish for the generation that was built; `None` when the guard fails. */
  function PublishState(state: Option<Generations>, expected: int): Option<Generations> {
    if state.Some? && state.value.asset == expected then Some(state.value.(indexed := expected))
    else if state.None? then Some(Generations(expected, expected))
    else None
  }

  /** Finalization is one transaction: state and job change together or not at all. */
  function FinalizeBoth(
      j: Job, state: Option<Generations>, token: nat, expected: int, now: int): (Job, Option<Generations>, bool)
  {
    var published := PublishState(state, expected);
    if published.Some? && Owns(j, token) then (CompleteJob(j, token, now), published, true) else (j, state, false)
  }

  // -------------------------------------------------------------------------- the table

  function Recovered(jobs: Jobs, now: int): Jobs {
    map s | s in jobs :: RecoverJob(jobs[s], now)
  }

  /** The outcome of a claim: which source, and the token. */
  datatype Claim = Claim(source: int, token: nat)

  /** Recover expired leases, then claim the first source, in order, with a due job. */
  function ClaimJobs(jobs: Jobs, sources: seq<int>, now: int): (Jobs, Option<Claim>) {
    ClaimFirst(Recovered(jobs, now), sources, now)
  }

  function ClaimFirst(jobs: Jobs, sources: seq<int>, now: int): (Jobs, Option<Claim>) {
    if sources == [] then (jobs, None)
    else if sources[0] in jobs && Due(jobs[sources[0]], now) then
      (jobs[sources[0] := ClaimedJob(jobs[sources[0]], now)], Some(Claim(sources[0], jobs[sources[0]].attempts + 1)))
    else ClaimFirst(jobs, sources[1..], now)
  }

  class PublishStore {
    var jobs: Jobs
    var states: map<int, Generations>

    constructor ()
      ensures jobs == map[] && states == map[]
    {
      jobs, states := map[], map[];
    }

    function StateOf(source: int): Option<Generations>
      reads this
    {
      if source in states then Some(states[source]) else None
    }

    method Enqueue(source: int, now: int)
      modifies `jobs
      ensures var before := if source in old(jobs) then Some(old(jobs)[source]) else None;
              jobs == old(jobs)[source := EnqueueJob(before, now)]
    {
      if source in jobs {
        var j := jobs[source];
        if j.status == Completed {
          jobs := jobs[source := Job(Queued, 0, None, now, None, None, None)];
        } else if j.status == Running {
          jobs := jobs[source := j.(completedAt := None)];
        } else {
          var lastError := if j.status == Failed then j.lastError else None;
          jobs := jobs[source := j.(lastError := lastError, startedAt := None, lease := None, completedAt := None)];
        }
      } else {
        jobs := jobs[source := Job(Queued, 0, None, now, None, None, None)];
      }
    }

    method RecoverExpired(now: int)
      modifies `jobs
      ensures jobs == Recovered(old(jobs), now)
    {
      ghost var base := jobs;
      var todo := jobs.Keys;
      while todo != {}
        invariant todo <= base.Keys && jobs.Keys == base.Keys
        invariant forall s :: s in base ==>
            s in jobs && jobs[s] == if s in todo then base[s] else RecoverJob(base[s], now)
        decreases todo
      {
        HasElement(todo);
        var s :| s in todo;
        var j := jobs[s];
        if j.status == Running && j.lease.Some? && j.lease.value <= now {
          var expired := Some("semantic hnsw publish lease expired");
          jobs := jobs[s := Job(Failed, j.attempts, expired, now, None, None, None)];
        }
        todo := todo - {s};
      }
      forall s | s in base ensures s in jobs && jobs[s] == Recovered(base, now)[s] {
      }
      assert jobs.Keys == Recovered(base, now).Keys;
    }

    method ClaimNext(sources: seq<int>, now: int) returns (claim: Option<Claim>)
      modifies `jobs
      ensures (jobs, claim) == ClaimJobs(old(jobs), sources, now)
    {
      RecoverExpired(now);
      ghost var recovered := jobs;
      var n := 0;
      while n < |sources|
        invariant 0 <= n <= |sources|
        invariant jobs == recovered
        invariant ClaimFirst(recovered, sources, now) == ClaimFirst(recovered, sources[n..], now)
      {
        var s := sources[n];
        if s in jobs && Due(jobs[s], now) {
          var token := jobs[s].attempts + 1;
          jobs := jobs[s := ClaimedJob(jobs[s], now)];
          return Some(Claim(s, token));
        }
        n := n + 1;
      }
      claim := None;
    }

    /** Publish the state and complete the job in one transaction, or leave both alone. */
    method Finalize(source: int, token: nat, expected: int, now: int) returns (ok: bool)
      requires source in jobs
      modifies `jobs, `states
      ensures ok <==> Owns(old(jobs)[source], token)
                      && (source in old(states) ==> old(states)[source].asset == expected)
      ensures ok ==> states == old(states)[source := Generations(expected, expected)]
      ensures ok ==> jobs == old(jobs)[source := CompleteJob(old(jobs)[source], token, now)]
      ensures ok ==> jobs[source].status == Completed && forall u :: !Eligible(jobs[source], u)
      ensures !ok ==> jobs == old(jobs) && states == old(states)
      ensures var (j, state, done) := FinalizeBoth(old(jobs)[source], old(StateOf(source)), token, expected, now);
              ok == done && jobs[source] == j && StateOf(source) == state
    {
      var published := PublishState(StateOf(source), expected);
      if published.None? || !Owns(jobs[source], token) {
        return false;
      }
      states := states[source := published.value];
      jobs := jobs[source := CompleteJob(jobs[source], token, now)];
      ok := true;
    }

    /** The owner's lease starts anew: no claim takes the job before it ends. */
    method Renew(source: int, token: nat, now: int) returns (ok: bool)
      requires source in jobs
      modifies `jobs
      ensures ok == Owns(old(jobs)[source], token)
      ensures jobs == old(jobs)[source := RenewJob(old(jobs)[source], token, now)]
      ensures ok ==> FreeFrom(jobs[source], now + LEASE) && Owns(jobs[source], token)
      ensures !ok ==> jobs == old(jobs)
    {
      ok := Owns(jobs[source], token);
      assert !ok ==> jobs[source := jobs[source]] == jobs;
      if ok {
        jobs := jobs[source := jobs[source].(lease := Some(now + LEASE))];
      }
    }

    /** The owner's job waits for its retry time; its token is spent. */
    method Fail(source: int, token: nat, cause: string, retryAt: int)
      requires source in jobs
      modifies `jobs
      ensures jobs == old(jobs)[source := FailJob(old(jobs)[source], token, cause, retryAt)]
      ensures OwnedOrCompleted(old(jobs)[source], token) ==>
                FreeFrom(jobs[source], retryAt) && !OwnedOrCompleted(jobs[source], token)
                    && jobs[source].attempts == token
      ensures !OwnedOrCompleted(old(jobs)[source], token) ==> jobs == old(jobs)
    {
      var j := jobs[source];
      assert jobs[source := j] == jobs;
      if j.status in {Running, Completed} && j.attempts == token {
        j := j.(status := Failed, lastError := Some(cause), scheduledAt := retryAt, lease := None, completedAt := None);
      }
      jobs := jobs[source := j];
    }

    /** The owner's job can be claimed at once, and the next claim gets the same token. */
    method Requeue(source: int, token: nat, now: int)
      requires source in jobs
      modifies `jobs
      ensures jobs == old(jobs)[source := RequeueJob(old(jobs)[source], token, now)]
      ensures OwnedOrCompleted(old(jobs)[source], token) ==>
                FreeFrom(jobs[source], now) && !OwnedOrCompleted(jobs[source], token)
      ensures OwnedOrCompleted(old(jobs)[source], token) && token > 0 ==>
          ClaimedJob(jobs[source], now).attempts == token
      ensures !OwnedOrCompleted(old(jobs)[source], token) ==> jobs == old(jobs)
    {
      var j := jobs[source];
      assert jobs[source := j] == jobs;
      if j.status in {Running, Completed} && j.attempts == token {
        j := Job(Queued, if j.attempts > 0 then j.attempts - 1 else 0, None, now, None, None, None);
      }
      jobs := jobs[source := j];
    }
  }

  // ------------------------------------------------------------------ no job gets stuck

  /** A job runs exactly when it has a lease. */
  predicate LeasedWhileRunning(jobs: Jobs) {
    forall s | s in jobs :: jobs[s].status == Running <==> jobs[s].lease.Some?
  }

  /** Every statement keeps that, whatever its arguments. */
  lemma StatementsKeepLeases(j: Job, now: int, token: nat, cause: string, retryAt: int)
    requires j.status == Running <==> j.lease.Some?
    ensures forall k | k in {EnqueueJob(Some(j), now), EnqueueJob(None, now), RecoverJob(j, now), ResetJob(j, now),
                             ClaimedJob(j, now), RenewJob(j, token, now), FailJob(j, token, cause, retryAt),
                             RequeueJob(j, token, now), CompleteJob(j, token, now)} ::
              k.status == Running <==> k.lease.Some?
  {
  }

  /** Until when a job is left alone: no claim can take it before, and one can from then on. */
  ghost predicate FreeFrom(j: Job, t: int) {
    forall u :: Eligible(j, u) <==> u >= t
  }

  /**
   When each transition lets the job be claimed: a claim or renewal holds it for the length
   of the lease, a failure until its retry time, and recovery, reset and cancellation free it
   at once.
   */
  lemma TransitionsFreeTheJob(j: Job, token: nat, now: int, cause: string, retryAt: int)
    ensures FreeFrom(ClaimedJob(j, now), now + 660)
    ensures Owns(j, token) ==> FreeFrom(RenewJob(j, token, now), now + 660)
    ensures OwnedOrCompleted(j, token) ==> FreeFrom(FailJob(j, token, cause, retryAt), retryAt)
    ensures OwnedOrCompleted(j, token) ==> FreeFrom(RequeueJob(j, token, now), now)
    ensures LeaseExpired(j, now) ==> FreeFrom(RecoverJob(j, now), now)
    ensures j.status == Running ==> FreeFrom(ResetJob(j, now), now)
    ensures Owns(j, token) ==> forall u :: !Eligible(CompleteJob(j, token, now), u)
  {
  }

  /** Canceling a claim gives the attempt back: the next claim hands out the same token. */
  lemma CanceledClaimCostsNothing(j: Job, now: int, later: int)
    ensures var claimed := ClaimedJob(j, now);
            var back := RequeueJob(claimed, claimed.attempts, later);
            && back.status == Queued && back.attempts == j.attempts
            && ClaimedJob(back, later).attempts == claimed.attempts
  {
  }

  /** Enqueuing again changes nothing: a waiting job keeps its place and a running one its lease. */
  lemma EnqueueIsIdempotent(job: Option<Job>, now: int, later: int)
    ensures EnqueueJob(Some(EnqueueJob(job, now)), later) == EnqueueJob(job, now)
  {
  }

  /** A new or completed job starts from nothing and is due at once; any other keeps its progress. */
  lemma EnqueueStartsOnlyFinished(job: Option<Job>, now: int)
    ensures job.None? || job.value.status == Completed ==>
              var started := EnqueueJob(job, now);
              started.status == Queued && started.attempts == 0 && started.lastError.None? && FreeFrom(started, now)
    ensures job.Some? && job.value.status != Completed ==>
              var j, kept := job.value, EnqueueJob(job, now);
              && kept.status == j.status && kept.attempts == j.attempts && kept.scheduledAt == j.scheduledAt
              && (j.status == Running ==> kept == j.(completedAt := None))
              && (j.status == Failed ==> kept.lastError == j.lastError)
              && forall u :: Eligible(kept, u) <==> Eligible(j, u)
  {
  }

  /**
   Only a claim spends an attempt and only a cancellation gives one back; a failure leaves its
   cause behind, and a claim and a completion clear it.
   */
  lemma AttemptsAndErrors(j: Job, token: nat, now: int, cause: string, retryAt: int)
    ensures forall k | k in {RecoverJob(j, now), ResetJob(j, now), RenewJob(j, token, now),
                             FailJob(j, token, cause, retryAt), CompleteJob(j, token, now)} :: k.attempts == j.attempts
    ensures ClaimedJob(j, now).attempts == j.attempts + 1 && ClaimedJob(j, now).lastError.None?
    ensures OwnedOrCompleted(j, token) && token > 0 ==> RequeueJob(j, token, now).attempts == j.attempts - 1
    ensures OwnedOrCompleted(j, token) ==>
              var failed, back := FailJob(j, token, cause, retryAt), RequeueJob(j, token, now);
              && failed.status == Failed && failed.lastError == Some(cause) && failed.completedAt.None?
              && back.status == Queued && back.lastError.None? && back.completedAt.None?
    ensures Owns(j, token) ==> CompleteJob(j, token, now).lastError.None?
    ensures j.status == Running ==> ResetJob(j, now).startedAt.None? && ResetJob(j, now).lastError == j.lastError
    ensures ClaimedJob(j, now).startedAt == CompleteJob(j.(startedAt := Some(now)), token, now).startedAt == Some(now)
  {
  }

  /** A statement whose guard fails leaves the job as it is. */
  lemma GuardsHold(j: Job, token: nat, now: int, cause: string, retryAt: int)
    ensures !(j.status == Running && j.attempts == token) ==>
              RenewJob(j, token, now) == CompleteJob(j, token, now) == j
    ensures !(j.status in {Running, Completed} && j.attempts == token) ==>
              FailJob(j, token, cause, retryAt) == RequeueJob(j, token, now) == j
    ensures j.status != Running ==> RecoverJob(j, now) == ResetJob(j, now) == j
    ensures j.lease.Some? && j.lease.value > now ==> RecoverJob(j, now) == j
  {
  }

  /** The job's part of the reported eligible count at an instant. */
  predicate Eligible(j: Job, now: int) {
    Due(j, now) || LeaseExpired(j, now)
  }

  function EligibleCount(jobs: Jobs, sources: seq<int>, now: int): nat {
    if sources == [] then 0
    else
      var first := if sources[0] in jobs && Eligible(jobs[sources[0]], now) then 1 else 0;
      first + EligibleCount(jobs, sources[1..], now)
  }

  /** Of distinct sources the count is the number of those with an eligible job. */
  lemma {:induction false} CountIsEligible(jobs: Jobs, sources: seq<int>, now: int)
    requires forall i, j | 0 <= i < j < |sources| :: sources[i] != sources[j]
    ensures EligibleCount(jobs, sources, now) == |set s | s in sources && s in jobs && Eligible(jobs[s], now)|
  {
    var all := set s | s in sources && s in jobs && Eligible(jobs[s], now);
    if sources == [] {
      assert all == {};
    } else {
      var first, rest := sources[0], sources[1..];
      CountIsEligible(jobs, rest, now);
      var others := set s | s in rest && s in jobs && Eligible(jobs[s], now);
      assert sources == [first] + rest && first !in rest;
      assert all == if first in jobs && Eligible(jobs[first], now) then {first} + others else others;
    }
  }

  /** The reported next eligible time of one job. */
  function NextEligible(j: Job, now: int): Option<int> {
    if Claimable(j) && j.scheduledAt > now then Some(j.scheduledAt)
    else if j.status == Running && j.lease.Some? && j.lease.value > now then j.lease
    else None
  }

  /** Recovery makes an expired job due, so a claim sees exactly the eligible ones. */
  lemma DueIffEligible(jobs: Jobs, source: int, now: int)
    requires source in jobs
    ensures source in Recovered(jobs, now)
    ensures Due(Recovered(jobs, now)[source], now) <==> Eligible(jobs[source], now)
  {
  }

  /** A claim finds a job exactly when the summed eligible count is positive. */
  lemma {:induction false} ClaimFindsIffEligible(jobs: Jobs, sources: seq<int>, now: int)
    ensures ClaimJobs(jobs, sources, now).1.Some? <==> EligibleCount(jobs, sources, now) > 0
  {
    if sources != [] {
      ClaimFindsIffEligible(jobs, sources[1..], now);
    }
  }

  /** The claimed source was eligible, none before it was, and the token is the new count of attempts. */
  lemma {:induction false} ClaimTakesTheFirst(jobs: Jobs, sources: seq<int>, now: int)
    requires ClaimJobs(jobs, sources, now).1.Some?
    ensures var (after, claim) := ClaimJobs(jobs, sources, now);
            var s := claim.value.source;
            && s in jobs && s in sources && Eligible(jobs[s], now)
            && (exists n :: 0 <= n < |sources| && sources[n] == s
                            && forall i | 0 <= i < n :: sources[i] !in jobs || !Eligible(jobs[sources[i]], now))
            && after == Recovered(jobs, now)[s := ClaimedJob(RecoverJob(jobs[s], now), now)]
            && Owns(after[s], claim.value.token) && claim.value.token == jobs[s].attempts + 1
  {
    if sources[0] in jobs && Eligible(jobs[sources[0]], now) {
      assert sources[0] in sources;
    } else {
      ClaimTakesTheFirst(jobs, sources[1..], now);
      var s := ClaimJobs(jobs, sources, now).1.value.source;
      var n :| 0 <= n < |sources[1..]| && sources[1..][n] == s
               && forall i | 0 <= i < n :: sources[1..][i] !in jobs || !Eligible(jobs[sources[1..][i]], now);
      assert sources[n + 1] == s;
      forall i | 0 <= i < n + 1 ensures sources[i] !in jobs || !Eligible(jobs[sources[i]], now) {
        if i > 0 { assert sources[i] == sources[1..][i - 1]; }
      }
    }
  }

  /**
   The reported next time is the first one at which a claim would succeed, and there is none
   exactly when the job is eligible now or has completed.
   */
  lemma NextEligibleIsFirst(j: Job, now: int)
    requires j.status == Running <==> j.lease.Some?
    ensures NextEligible(j, now).None? <==> j.status == Completed || Eligible(j, now)
    ensures NextEligible(j, now).Some? ==>
              var t := NextEligible(j, now).value;
              t > now && Eligible(j, t) && forall u | now <= u < t :: !Eligible(j, u)
    ensures j.status == Completed ==> forall u :: !Eligible(j, u)
  {
  }

  /** The earliest reported time over the sources' jobs. */
  function EarliestEligible(jobs: Jobs, sources: seq<int>, now: int): Option<int> {
    if sources == [] then None
    else
      var rest := EarliestEligible(jobs, sources[1..], now);
      var first := if sources[0] in jobs then NextEligible(jobs[sources[0]], now) else None;
      if first.None? then rest
      else if rest.None? || first.value <= rest.value then first
      else rest
  }

  /**
   When no claim succeeds now, the earliest reported time is the first one at which a claim
   does, and without one no claim ever succeeds until some statement changes a job.
   */
  lemma {:induction false} EarliestIsFirstClaim(jobs: Jobs, sources: seq<int>, now: int, t: int)
    requires LeasedWhileRunning(jobs) && ClaimJobs(jobs, sources, now).1.None? && t >= now
    ensures ClaimJobs(jobs, sources, t).1.Some?
            <==> var first := EarliestEligible(jobs, sources, now); first.Some? && first.value <= t
  {
    if sources != [] {
      EarliestIsFirstClaim(jobs, sources[1..], now, t);
      if sources[0] in jobs {
        DueIffEligible(jobs, sources[0], now);
        DueIffEligible(jobs, sources[0], t);
        EligibleLater(jobs[sources[0]], now, t);
      }
    }
  }

  lemma EligibleLater(j: Job, now: int, t: int)
    requires (j.status == Running <==> j.lease.Some?) && !Eligible(j, now) && t >= now
    ensures Eligible(j, t) <==> NextEligible(j, now).Some? && NextEligible(j, now).value <= t
  {
  }
}
