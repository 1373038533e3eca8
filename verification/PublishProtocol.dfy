/**
 Whole runs of the publish queue for one source: publishers claim the job in two statements,
 build, check, finalize, and may lose their lease, be canceled or crash at any point, while
 the catalog changes assets, writes states, enqueues again and collects retired corpora.

 `owner`, `changes` and `writtenAt` are history: the publisher that marked the job last and
 has not lost it since, the number of asset changes so far, and that number as the state row
 was last written.
 */
module PublishProtocol {
  import opened Wrappers
  import opened IntegerSets
  import opened PublishJobs

  /** Row identities are never used twice. */
  datatype Row = Row(id: nat, job: Job)

  datatype Pending = Pending(id: nat, attempts: nat)

  /** The generation a publisher builds, whether a state row was there, and the changes seen by then. */
  datatype Built = Built(expected: int, rowExisted: bool, readAt: nat)

  datatype Holder = Holder(id: nat, token: nat, built: Option<Built>, checked: bool)

  datatype World = World(
    row: Option<Row>,
    nextId: nat,
    state: Option<Generations>,
    snapshots: set<Generations>,
    pending: map<int, Pending>,
    holders: map<int, Holder>,
    owner: Option<int>,
    changes: nat,
    writtenAt: nat
  )

  const INITIAL := World(None, 0, None, {}, map[], map[], None, 0, 0)

  datatype Action =
    | Enqueue(now: int)
    | Recover(now: int)
    | ResetRunning(now: int)
    | ReadClaim(actor: int, now: int)
    | MarkClaim(actor: int, now: int)
    | Renew(actor: int, now: int)
    | ReadGeneration(actor: int)
    | CheckGeneration(actor: int)
    | Finalize(actor: int, now: int)
    | Fail(actor: int, cause: string, retryAt: int)
    | Requeue(actor: int, now: int)
    | Leave(actor: int)
    | ChangeAsset
    | ReadStatus
    | WriteStatus(generations: Generations)
    | CollectCorpus

  // ------------------------------------------------------------------------------ steps

  function WithJob(w: World, j: Job): World
    requires w.row.Some?
  {
    w.(row := Some(w.row.value.(job := j)))
  }

  predicate Holds(w: World, actor: int) {
    actor in w.holders && w.row.Some? && w.holders[actor].id == w.row.value.id
  }

  /** The job leaves its owner when the statement changed it. */
  function Taken(w: World, j: Job): World
    requires w.row.Some?
  {
    if j == w.row.value.job then w else WithJob(w, j).(owner := None)
  }

  function Mark(w: World, actor: int, now: int): World
    requires actor in w.pending
  {
    var p := w.pending[actor];
    var rest := w.(pending := w.pending - {actor});
    if w.row.Some? && w.row.value.id == p.id && Claimable(w.row.value.job)
    then WithJob(rest, ClaimedJob(w.row.value.job, now))
         .(holders := w.holders[actor := Holder(p.id, p.attempts + 1, None, false)], owner := Some(actor))
    else rest
  }

  function Finalized(w: World, actor: int, now: int): World
    requires Holds(w, actor) && w.holders[actor].built.Some?
  {
    var h := w.holders[actor];
    var (j, state, done) := FinalizeBoth(w.row.value.job, w.state, h.token, h.built.value.expected, now);
    WithJob(w, j).(state := state)
  }

  predicate Commits(w: World, a: Action) {
    && a.Finalize? && Holds(w, a.actor) && w.holders[a.actor].built.Some? && w.holders[a.actor].checked
    && var h := w.holders[a.actor];
       FinalizeBoth(w.row.value.job, w.state, h.token, h.built.value.expected, a.now).2
  }

  /** One step; an action that does not apply changes nothing. */
  function Step(w: World, a: Action): World {
    match a
    case Enqueue(now) =>
      if w.row.None? then w.(row := Some(Row(w.nextId, EnqueueJob(None, now))), nextId := w.nextId + 1, owner := None)
      else if w.row.value.job.status == Completed
      then WithJob(w, EnqueueJob(Some(w.row.value.job), now)).(owner := None)
      else WithJob(w, EnqueueJob(Some(w.row.value.job), now))
    case Recover(now) => if w.row.Some? then Taken(w, RecoverJob(w.row.value.job, now)) else w
    case ResetRunning(now) => if w.row.Some? then Taken(w, ResetJob(w.row.value.job, now)) else w
    case ReadClaim(actor, now) =>
      if w.row.Some? && Due(w.row.value.job, now) && actor !in w.holders && actor !in w.pending
      then w.(pending := w.pending[actor := Pending(w.row.value.id, w.row.value.job.attempts)])
      else w
    case MarkClaim(actor, now) => if actor in w.pending then Mark(w, actor, now) else w
    case Renew(actor, now) =>
      if Holds(w, actor) then WithJob(w, RenewJob(w.row.value.job, w.holders[actor].token, now)) else w
    case ReadGeneration(actor) =>
      if actor in w.holders
      then w.(holders := w.holders[actor := w.holders[actor].(
        built := Some(Built(if w.state.Some? then w.state.value.asset else 0, w.state.Some?, w.changes)),
        checked := false)])
      else w
    case CheckGeneration(actor) =>
      if actor in w.holders && w.holders[actor].built.Some? && w.state.Some?
         && w.state.value.asset == w.holders[actor].built.value.expected
      then w.(holders := w.holders[actor := w.holders[actor].(checked := true)])
      else w
    case Finalize(actor, now) =>
      if Holds(w, actor) && w.holders[actor].built.Some? && w.holders[actor].checked
      then Finalized(w, actor, now)
      else w
    case Fail(actor, cause, retryAt) =>
      var after := if Holds(w, actor)
                   then Taken(w, FailJob(w.row.value.job, w.holders[actor].token, cause, retryAt))
                   else w;
      after.(holders := w.holders - {actor})
    case Requeue(actor, now) =>
      var after := if Holds(w, actor) then Taken(w, RequeueJob(w.row.value.job, w.holders[actor].token, now)) else w;
      after.(holders := w.holders - {actor})
    case Leave(actor) => w.(holders := w.holders - {actor}, pending := w.pending - {actor})
    case ChangeAsset =>
      w.(changes := w.changes + 1,
         state := if w.state.Some? then Some(w.state.value.(asset := w.state.value.asset + 1)) else None)
    case ReadStatus => w.(snapshots := w.snapshots + {if w.state.Some? then w.state.value else Generations(0, -1)})
    case WriteStatus(generations) =>
      if generations in w.snapshots && w.state.None?
      then w.(state := Some(generations), writtenAt := w.changes)
      else w
    case CollectCorpus => w.(row := None, state := None, owner := None)
  }

  function Run(w: World, actions: seq<Action>): World
    decreases |actions|
  {
    if actions == [] then w else Run(Step(w, actions[0]), actions[1..])
  }

  /** The states of a run, the first one included. */
  function States(w: World, actions: seq<Action>): (states: seq<World>)
    ensures |states| == |actions| + 1 && states[0] == w && states[|actions|] == Run(w, actions)
    ensures forall k | 0 <= k < |actions| :: states[k + 1] == Step(states[k], actions[k])
    decreases |actions|
  {
    if actions == [] then [w] else [w] + States(Step(w, actions[0]), actions[1..])
  }

  // ---------------------------------------------------------------------------- fencing

  predicate Busy(j: Job) {
    j.status == Running || j.status == Completed
  }

  /** `attempts` is at least every live token, and larger than a superseded one while the job is taken. */
  predicate Fenced(w: World) {
    && (forall a | a in w.holders :: w.holders[a].token > 0 && w.holders[a].id < w.nextId)
    && (forall a | a in w.pending :: w.pending[a].id < w.nextId)
    && (w.row.Some? ==>
          var row := w.row.value;
          && row.id < w.nextId
          && (forall a | a in w.holders && w.holders[a].id == row.id ::
                w.holders[a].token <= row.job.attempts
                && (Busy(row.job) && w.owner != Some(a) ==> w.holders[a].token < row.job.attempts))
          && (forall a | a in w.pending && w.pending[a].id == row.id ::
                w.pending[a].attempts <= row.job.attempts
                && (Busy(row.job) ==> w.pending[a].attempts < row.job.attempts)))
  }

  /** An enqueue that starts a completed job over sets its attempts back to zero. */
  predicate StartsOver(w: World, a: Action) {
    a.Enqueue? && w.row.Some? && w.row.value.job.status == Completed
  }

  /** No publisher holds the job, and none has read it at a positive count of attempts. */
  predicate NobodyRemembers(w: World) {
    w.row.Some? ==>
      && (forall a | a in w.holders :: w.holders[a].id != w.row.value.id)
      && (forall a | a in w.pending && w.pending[a].id == w.row.value.id :: w.pending[a].attempts == 0)
  }

  lemma StepKeepsFenced(w: World, a: Action)
    requires Fenced(w) && !StartsOver(w, a)
    ensures Fenced(Step(w, a))
  {
    if a.Requeue? {
      RequeueKeepsFenced(w, a);
    } else if a.MarkClaim? {
      MarkKeepsFenced(w, a);
    } else if ActsOnJob(a) {
      TransitionKeepsFenced(w, a);
    }
  }

  /** The new token is at most the new count, and every older one is below it. */
  lemma MarkKeepsFenced(w: World, a: Action)
    requires Fenced(w) && a.MarkClaim?
    ensures Fenced(Step(w, a))
  {
  }

  lemma TransitionKeepsFenced(w: World, a: Action)
    requires Fenced(w) && (a.Renew? || a.Fail? || a.Finalize?)
    ensures Fenced(Step(w, a))
  {
  }

  /** A cancellation lowers `attempts`, but only its holder, who leaves, had the old value as a token. */
  lemma RequeueKeepsFenced(w: World, a: Action)
    requires Fenced(w) && a.Requeue?
    ensures Fenced(Step(w, a))
  {
    if Holds(w, a.actor) && OwnedOrCompleted(w.row.value.job, w.holders[a.actor].token) {
      var attempts := w.row.value.job.attempts;
      assert w.owner == Some(a.actor);
      forall b | b in w.holders && b != a.actor && w.holders[b].id == w.row.value.id
        ensures w.holders[b].token <= attempts - 1
      {
      }
    }
  }

  /** Starting over keeps the fence exactly when no publisher remembers a token. */
  lemma StartingOverKeepsFencedIff(w: World, a: Action)
    requires Fenced(w) && StartsOver(w, a)
    ensures Fenced(Step(w, a)) <==> NobodyRemembers(w)
  {
    var after := Step(w, a);
    if Fenced(after) {
      forall b | b in w.holders ensures w.holders[b].id != w.row.value.id {
        assert b in after.holders && after.row.value.job.attempts == 0;
      }
      forall b | b in w.pending && w.pending[b].id == w.row.value.id ensures w.pending[b].attempts == 0 {
        assert b in after.pending && after.row.value.job.attempts == 0;
      }
    }
  }

  /** A publisher's own transition of the job. */
  predicate ActsOnJob(a: Action) {
    a.Renew? || a.Fail? || a.Requeue? || a.Finalize?
  }

  lemma SupersededStepChangesNothing(w: World, a: Action)
    requires Fenced(w) && ActsOnJob(a) && w.owner != Some(a.actor)
    ensures Step(w, a).row == w.row && Step(w, a).state == w.state
  {
    if Holds(w, a.actor) {
      var h := w.holders[a.actor];
      assert Busy(w.row.value.job) ==> h.token < w.row.value.job.attempts;
    }
  }

  /** Of all publishers at most one passes the guard of any transition. */
  lemma AtMostOnePasses(w: World, a: int, b: int)
    requires Fenced(w) && Holds(w, a) && Holds(w, b)
    requires OwnedOrCompleted(w.row.value.job, w.holders[a].token)
    requires OwnedOrCompleted(w.row.value.job, w.holders[b].token)
    ensures a == b
  {
    assert w.owner == Some(a) && w.owner == Some(b);
  }

  /** In every run a job that is queued, failed or gone has no owner: whoever marked it has lost it. */
  lemma {:induction false} OwnedJobIsBusy(actions: seq<Action>, k: nat)
    requires k <= |actions|
    ensures OwnedIsBusy(States(INITIAL, actions)[k])
  {
    if k > 0 {
      OwnedJobIsBusy(actions, k - 1);
      var before := States(INITIAL, actions)[k - 1];
      assert States(INITIAL, actions)[k] == Step(before, actions[k - 1]);
      StepKeepsOwnedBusy(before, actions[k - 1]);
    }
  }

  predicate OwnedIsBusy(w: World) {
    w.owner.Some? ==> w.row.Some? && Busy(w.row.value.job)
  }

  lemma StepKeepsOwnedBusy(w: World, a: Action)
    requires OwnedIsBusy(w)
    ensures OwnedIsBusy(Step(w, a))
  {
  }

  /** A publisher passes the check only over the generation it built. */
  lemma CheckedWasCurrent(w: World, a: Action)
    requires a.CheckGeneration? && a.actor in w.holders && !w.holders[a.actor].checked
    ensures Step(w, a).holders[a.actor].checked <==>
            w.holders[a.actor].built.Some? && w.state.Some?
                && w.holders[a.actor].built.value.expected == w.state.value.asset
  {
  }

  // ------------------------------------------- when starting over is safe, exactly

  /**
   From here on, until a completed job is started over again, no publisher that does not own
   the job changes the job or the published state.
   */
  ghost predicate NobodyInterferes(w: World) {
    forall actions: seq<Action>, k: nat | k < |actions| && NeverStartsOver(w, actions) ::
      HarmlessAt(States(w, actions)[k], actions[k])
  }

  predicate NeverStartsOver(w: World, actions: seq<Action>) {
    forall k | 0 <= k < |actions| :: !StartsOver(States(w, actions)[k], actions[k])
  }

  predicate HarmlessAt(w: World, a: Action) {
    ActsOnJob(a) && w.owner != Some(a.actor) ==> Step(w, a).row == w.row && Step(w, a).state == w.state
  }

  lemma {:induction false} FencedUntilStartedOver(w: World, actions: seq<Action>, k: nat)
    requires Fenced(w) && NeverStartsOver(w, actions) && k <= |actions|
    ensures Fenced(States(w, actions)[k])
  {
    if k > 0 {
      FencedUntilStartedOver(w, actions, k - 1);
      StepKeepsFenced(States(w, actions)[k - 1], actions[k - 1]);
    }
  }

  lemma FencedIsSafe(w: World)
    requires Fenced(w)
    ensures NobodyInterferes(w)
  {
    forall actions: seq<Action>, k: nat | k < |actions| && NeverStartsOver(w, actions)
      ensures HarmlessAt(States(w, actions)[k], actions[k])
    {
      FencedUntilStartedOver(w, actions, k);
      if ActsOnJob(actions[k]) && States(w, actions)[k].owner != Some(actions[k].actor) {
        SupersededStepChangesNothing(States(w, actions)[k], actions[k]);
      }
    }
  }

  lemma HarmIsInterference(w: World, a: Action)
    requires !HarmlessAt(w, a)
    ensures !NobodyInterferes(w)
  {
    assert States(w, [a])[0] == w;
    assert NeverStartsOver(w, [a]) && !HarmlessAt(States(w, [a])[0], [a][0]);
  }

  /** Interference after a step is interference before it. */
  lemma InterferenceBefore(w: World, a: Action)
    requires !StartsOver(w, a) && !NobodyInterferes(Step(w, a))
    ensures !NobodyInterferes(w)
  {
    var actions: seq<Action>, k: nat :| k < |actions| && NeverStartsOver(Step(w, a), actions)
                      && !HarmlessAt(States(Step(w, a), actions)[k], actions[k]);
    var longer := [a] + actions;
    LongerRun(w, a, actions);
    forall i | 0 <= i < |longer| ensures !StartsOver(States(w, longer)[i], longer[i]) {
      if i > 0 { assert !StartsOver(States(Step(w, a), actions)[i - 1], actions[i - 1]); }
    }
    assert !HarmlessAt(States(w, longer)[k + 1], longer[k + 1]);
  }

  lemma LongerRun(w: World, a: Action, actions: seq<Action>)
    ensures States(w, [a] + actions) == [w] + States(Step(w, a), actions)
  {
    assert ([a] + actions)[1..] == actions;
  }

  /** A holder whose token is still ahead of a job that waits to be claimed. */
  predicate Ahead(w: World, holder: int) {
    && Holds(w, holder) && Claimable(w.row.value.job)
    && w.holders[holder].token > w.row.value.job.attempts
  }

  predicate Newcomer(w: World, actor: int) {
    actor !in w.holders && actor !in w.pending
  }

  /** A newcomer claims the job and, while the token is not reached, loses its lease again. */
  lemma {:induction false} TokenIsReached(w: World, holder: int, actor: int)
    requires Ahead(w, holder) && Newcomer(w, actor)
    ensures !NobodyInterferes(w)
    decreases w.holders[holder].token - w.row.value.job.attempts
  {
    var now := w.row.value.job.scheduledAt;
    var read := Step(w, ReadClaim(actor, now));
    var claimed := Step(read, MarkClaim(actor, now));
    assert claimed.row == Some(Row(w.row.value.id, ClaimedJob(w.row.value.job, now))) && claimed.owner == Some(actor);
    assert claimed.holders == w.holders[actor := Holder(w.row.value.id, w.row.value.job.attempts + 1, None, false)];
    if w.holders[holder].token == w.row.value.job.attempts + 1 {
      HarmIsInterference(claimed, Fail(holder, "", now));
    } else {
      var lost := Step(claimed, Recover(now + LEASE));
      var left := Step(lost, Leave(actor));
      assert left.row == Some(Row(w.row.value.id, RecoverJob(claimed.row.value.job, now + LEASE)));
      TokenIsReached(left, holder, actor);
      InterferenceBefore(lost, Leave(actor));
      InterferenceBefore(claimed, Recover(now + LEASE));
    }
    InterferenceBefore(read, MarkClaim(actor, now));
    InterferenceBefore(w, ReadClaim(actor, now));
  }

  /** A claim read before the job was started over hands out a token that is ahead. */
  lemma ReadClaimGetsAhead(w: World, reader: int, actor: int)
    requires w.row.Some? && Claimable(w.row.value.job) && w.row.value.job.attempts == 0
    requires reader in w.pending
    requires w.pending[reader].id == w.row.value.id && w.pending[reader].attempts > 0
    requires Newcomer(w, actor)
    ensures !NobodyInterferes(w)
  {
    var now := w.row.value.job.scheduledAt;
    var marked := Step(w, MarkClaim(reader, now));
    var lost := Step(marked, Recover(now + LEASE));
    assert marked.row.value.job == ClaimedJob(w.row.value.job, now);
    assert Ahead(lost, reader) && Newcomer(lost, actor);
    TokenIsReached(lost, reader, actor);
    InterferenceBefore(marked, Recover(now + LEASE));
    InterferenceBefore(w, MarkClaim(reader, now));
  }

  lemma NewcomerExists(w: World)
    ensures exists actor :: Newcomer(w, actor)
  {
    var actors := w.holders.Keys + w.pending.Keys;
    if actors == {} {
      assert Newcomer(w, 0);
    } else {
      assert MaxOf(actors) + 1 !in actors;
      assert Newcomer(w, MaxOf(actors) + 1);
    }
  }

  /**
   Starting a completed job over is safe if and only if nobody remembers it: then no
   publisher without ownership ever changes job or state, and otherwise some run makes one.
   */
  lemma StartingOverIsSafeIff(w: World, a: Action)
    requires Fenced(w) && StartsOver(w, a)
    ensures NobodyInterferes(Step(w, a)) <==> NobodyRemembers(w)
  {
    var after := Step(w, a);
    StartingOverKeepsFencedIff(w, a);
    if NobodyRemembers(w) {
      FencedIsSafe(after);
    } else {
      NewcomerExists(after);
      var actor :| Newcomer(after, actor);
      if holder :| holder in w.holders && w.holders[holder].id == w.row.value.id {
        TokenIsReached(after, holder, actor);
      } else {
        var reader :| reader in w.pending && w.pending[reader].id == w.row.value.id && w.pending[reader].attempts > 0;
        ReadClaimGetsAhead(after, reader, actor);
      }
    }
  }

  /** No step of the run starts a job over that someone remembers. */
  predicate StartsOverSafely(w: World, actions: seq<Action>) {
    forall k | 0 <= k < |actions| ::
      var before := States(w, actions)[k];
      StartsOver(before, actions[k]) ==> NobodyRemembers(before)
  }

  lemma {:induction false} RunIsFenced(w: World, actions: seq<Action>, k: nat)
    requires Fenced(w) && StartsOverSafely(w, actions) && k <= |actions|
    ensures Fenced(States(w, actions)[k])
  {
    if k > 0 {
      RunIsFenced(w, actions, k - 1);
      var before := States(w, actions)[k - 1];
      if StartsOver(before, actions[k - 1]) {
        StartingOverKeepsFencedIff(before, actions[k - 1]);
      } else {
        StepKeepsFenced(before, actions[k - 1]);
      }
    }
  }

  /** Over whole runs: a superseded publisher changes neither the job nor the published state. */
  lemma {:induction false} SupersededNeverActs(actions: seq<Action>, k: nat)
    requires StartsOverSafely(INITIAL, actions) && k < |actions|
    requires ActsOnJob(actions[k]) && States(INITIAL, actions)[k].owner != Some(actions[k].actor)
    ensures States(INITIAL, actions)[k + 1].row == States(INITIAL, actions)[k].row
    ensures States(INITIAL, actions)[k + 1].state == States(INITIAL, actions)[k].state
  {
    RunIsFenced(INITIAL, actions, k);
    SupersededStepChangesNothing(States(INITIAL, actions)[k], actions[k]);
  }

  /**
   Without that condition fencing fails: publisher 1 completes the job, and before it has
   activated its index the job is enqueued again and claimed by publisher 2 under the same
   token; when activation fails, publisher 1 takes the job away from publisher 2.
   */
  const COMPLETED_ONCE := [
    Enqueue(0), ReadStatus, WriteStatus(Generations(0, -1)),
    ReadClaim(1, 0), MarkClaim(1, 0), ReadGeneration(1), CheckGeneration(1), Finalize(1, 0)
  ]

  const CLAIMED_AGAIN := [Enqueue(1), ReadClaim(2, 1), MarkClaim(2, 1)]

  const FIRST_HOLDER := Holder(0, 1, Some(Built(0, true, 0)), true)

  const ACTIVATING := World(
    Some(Row(0, Job(Completed, 1, None, 0, Some(0), None, Some(0)))), 1, Some(Generations(0, 0)), {Generations(0, -1)},
    map[], map[1 := FIRST_HOLDER], Some(1), 0, 0)

  const OVERTAKEN := World(
    Some(Row(0, Job(Running, 1, None, 1, Some(1), Some(1 + LEASE), None))), 1, Some(Generations(0, 0)),
        {Generations(0, -1)},
    map[], map[1 := FIRST_HOLDER, 2 := Holder(0, 1, None, false)], Some(2), 0, 0)

  /** The states of a run, found one step at a time. */
  lemma {:induction false} RunOf(actions: seq<Action>, states: seq<World>)
    requires |states| == |actions| + 1
    requires forall k | 0 <= k < |actions| :: states[k + 1] == Step(states[k], actions[k])
    ensures Run(states[0], actions) == states[|actions|]
    decreases |actions|
  {
    if actions != [] {
      assert states[0 + 1] == Step(states[0], actions[0]);
      RunOf(actions[1..], states[1..]);
    }
  }

  lemma FirstPublisherCompletes()
    ensures Run(INITIAL, COMPLETED_ONCE) == ACTIVATING
  {
    var job := Job(Queued, 0, None, 0, None, None, None);
    var running := Job(Running, 1, None, 0, Some(0), Some(LEASE), None);
    var seen := {Generations(0, -1)};
    var s1 := INITIAL.(row := Some(Row(0, job)), nextId := 1);
    var s2 := s1.(snapshots := seen);
    var s3 := s2.(state := Some(Generations(0, -1)));
    var s4 := s3.(pending := map[1 := Pending(0, 0)]);
    var s5 := s3.(row := Some(Row(0, running)), holders := map[1 := Holder(0, 1, None, false)], owner := Some(1));
    var s6 := s5.(holders := map[1 := FIRST_HOLDER.(checked := false)]);
    var s7 := s5.(holders := map[1 := FIRST_HOLDER]);
    assert Step(s1, ReadStatus) == s2;
    assert Step(s4, MarkClaim(1, 0)) == s5;
    assert Step(s5, ReadGeneration(1)) == s6;
    assert Step(s6, CheckGeneration(1)) == s7;
    RunOf(COMPLETED_ONCE, [INITIAL, s1, s2, s3, s4, s5, s6, s7, ACTIVATING]);
  }

  lemma SecondPublisherClaims()
    ensures Run(ACTIVATING, CLAIMED_AGAIN) == OVERTAKEN
  {
    var s1 := ACTIVATING.(row := Some(Row(0, Job(Queued, 0, None, 1, None, None, None))), owner := None);
    var s2 := s1.(pending := map[2 := Pending(0, 0)]);
    assert Step(s1, ReadClaim(2, 1)) == s2;
    assert Step(s2, MarkClaim(2, 1)) == OVERTAKEN;
    RunOf(CLAIMED_AGAIN, [ACTIVATING, s1, s2, OVERTAKEN]);
  }

  lemma StartingOverLosesTheFence()
    ensures Run(Run(INITIAL, COMPLETED_ONCE), CLAIMED_AGAIN) == OVERTAKEN
    ensures OVERTAKEN.owner == Some(2) && Holds(OVERTAKEN, 2)
    ensures Owns(OVERTAKEN.row.value.job, OVERTAKEN.holders[2].token)
    ensures var after := Step(OVERTAKEN, Fail(1, "activation failed", 9));
            after.row.Some? && after.row.value.job.status == Failed
  {
    FirstPublisherCompletes();
    SecondPublisherClaims();
    FirstTakesTheJob();
  }

  lemma FirstTakesTheJob()
    ensures Step(OVERTAKEN, Fail(1, "activation failed", 9)).row
         == Some(Row(0, FailJob(OVERTAKEN.row.value.job, 1, "activation failed", 9)))
    ensures OwnedOrCompleted(OVERTAKEN.row.value.job, 1)
  {
  }

  /** A job runs exactly while it has a lease. */
  predicate Leased(w: World) {
    w.row.Some? ==> (w.row.value.job.status == Running <==> w.row.value.job.lease.Some?)
  }

  /** In every run, so an expired or abandoned claim can always be recovered. */
  lemma {:induction false} RunIsLeased(actions: seq<Action>, k: nat)
    requires k <= |actions|
    ensures Leased(States(INITIAL, actions)[k])
  {
    if k > 0 {
      RunIsLeased(actions, k - 1);
      StepKeepsLeased(States(INITIAL, actions)[k - 1], actions[k - 1]);
    }
  }

  lemma StepKeepsLeased(w: World, a: Action)
    requires Leased(w)
    ensures Leased(Step(w, a))
  {
  }

  // ------------------------------------------------------------------------ generations

  /** What a publisher that has read the generation knows of the state. */
  predicate Informed(w: World, h: Holder) {
    && h.id < w.nextId
    && (h.checked ==> h.built.Some?)
    && (h.built.Some? ==>
          var b := h.built.value;
          var current := w.row.Some? && w.row.value.id == h.id;
          && b.readAt <= w.changes
          && (!b.rowExisted ==> b.expected == 0)
          && (current && (b.rowExisted || h.checked) ==> w.state.Some?)
          && (current && b.rowExisted ==> w.state.value.asset == b.expected + w.changes - b.readAt))
  }

  predicate Bounded(w: World) {
    && (w.state.Some? ==>
          && w.state.value.indexed <= w.state.value.asset
          && 0 <= w.changes - w.writtenAt <= w.state.value.asset)
    && w.writtenAt <= w.changes
    && (forall g | g in w.snapshots :: g.indexed <= g.asset && 0 <= g.asset)
    && (forall a | a in w.pending :: w.pending[a].id < w.nextId)
    && (w.row.Some? ==> w.row.value.id < w.nextId)
  }

  predicate Consistent(w: World) {
    Bounded(w) && forall a | a in w.holders :: Informed(w, w.holders[a])
  }

  lemma StepKeepsConsistent(w: World, a: Action)
    requires Consistent(w)
    ensures Consistent(Step(w, a))
  {
    var after := Step(w, a);
    StepKeepsGenerations(w, a);
    forall actor | actor in after.holders ensures Informed(after, after.holders[actor]) {
      if actor in w.holders {
        StepKeepsInformed(w, a, actor);
      } else {
        NewHolderIsIgnorant(w, a, actor);
      }
    }
  }

  /** The state, the snapshots and the identities stay in their bounds. */
  lemma StepKeepsGenerations(w: World, a: Action)
    requires Consistent(w)
    ensures Bounded(Step(w, a))
  {
    if !(a.Finalize? || a.ChangeAsset? || a.WriteStatus? || a.CollectCorpus? || a.ReadStatus?) {
      OthersKeepGenerations(w, a);
    }
  }

  lemma OthersKeepGenerations(w: World, a: Action)
    requires Bounded(w) && !(a.Finalize? || a.ChangeAsset? || a.WriteStatus? || a.CollectCorpus? || a.ReadStatus?)
    ensures Bounded(Step(w, a))
  {
  }

  lemma NewHolderIsIgnorant(w: World, a: Action, actor: int)
    requires Consistent(w) && actor !in w.holders && actor in Step(w, a).holders
    ensures Informed(Step(w, a), Step(w, a).holders[actor])
  {
  }

  lemma StepKeepsInformed(w: World, a: Action, actor: int)
    requires Consistent(w) && actor in w.holders && actor in Step(w, a).holders
    ensures Informed(Step(w, a), Step(w, a).holders[actor])
  {
    assert Informed(w, w.holders[actor]);
  }

  lemma {:induction false} RunIsConsistent(actions: seq<Action>, k: nat)
    requires k <= |actions|
    ensures Consistent(States(INITIAL, actions)[k])
  {
    if k > 0 {
      RunIsConsistent(actions, k - 1);
      StepKeepsConsistent(States(INITIAL, actions)[k - 1], actions[k - 1]);
    }
  }

  /** In every run the indexed generation is at most the asset generation, and only a collection lowers it. */
  lemma {:induction false} IndexedNeverDecreases(actions: seq<Action>, k: nat)
    requires k < |actions|
    ensures var before, after := States(INITIAL, actions)[k].state, States(INITIAL, actions)[k + 1].state;
            && (after.Some? ==> after.value.indexed <= after.value.asset)
            && (before.Some? && after.Some? ==> before.value.indexed <= after.value.indexed)
            && (before.Some? && after.None? ==> actions[k].CollectCorpus?)
  {
    RunIsConsistent(actions, k);
    RunIsConsistent(actions, k + 1);
    StepKeepsIndexed(States(INITIAL, actions)[k], actions[k]);
  }

  lemma StepKeepsIndexed(w: World, a: Action)
    requires Consistent(w)
    ensures var before, after := w.state, Step(w, a).state;
            && (before.Some? && after.Some? ==> before.value.indexed <= after.value.indexed)
            && (before.Some? && after.None? ==> a.CollectCorpus?)
  {
    if !(a.Finalize? || a.ChangeAsset? || a.WriteStatus? || a.CollectCorpus?) {
      OthersKeepState(w, a);
    }
  }

  lemma OthersKeepState(w: World, a: Action)
    requires !(a.Finalize? || a.ChangeAsset? || a.WriteStatus? || a.CollectCorpus?)
    ensures Step(w, a).state == w.state
  {
  }

  /**
   In every run a finalization that commits moves job and state together and never inserts
   the state row. No asset has changed since the generation was read if and only if a state
   row was there then, or none changed before the row was written.
   */
  lemma {:induction false} CommitsOnlyUnchanged(actions: seq<Action>, k: nat)
    requires k < |actions| && Commits(States(INITIAL, actions)[k], actions[k])
    ensures var before, after := States(INITIAL, actions)[k], States(INITIAL, actions)[k + 1];
            var h := before.holders[actions[k].actor];
            && before.state.Some? && after.row.value.job.status == Completed
            && after.state == Some(Generations(before.state.value.asset, before.state.value.asset))
            && (h.built.value.readAt == before.changes
                <==> h.built.value.rowExisted || h.built.value.readAt == before.writtenAt)
  {
    RunIsConsistent(actions, k);
    var before := States(INITIAL, actions)[k];
    assert Informed(before, before.holders[actions[k].actor]);
  }

  /** A finalization that does not commit leaves both alone. */
  lemma AbortedFinalizationChangesNothing(w: World, a: Action)
    requires a.Finalize? && !Commits(w, a)
    ensures Step(w, a) == w
  {
    if Holds(w, a.actor) && w.holders[a.actor].built.Some? && w.holders[a.actor].checked {
      assert WithJob(w, w.row.value.job).(state := w.state) == w;
    }
  }

  /** If there was no row, a change made before the row is written goes unnoticed. */
  const UNNOTICED := [
    Enqueue(0), ReadStatus, ReadClaim(1, 0), MarkClaim(1, 0), ReadGeneration(1),
    ChangeAsset, WriteStatus(Generations(0, -1)), CheckGeneration(1)
  ]

  const UNSEEN := World(
    Some(Row(0, Job(Running, 1, None, 0, Some(0), Some(LEASE), None))), 1, Some(Generations(0, -1)),
        {Generations(0, -1)},
    map[], map[1 := Holder(0, 1, Some(Built(0, false, 0)), true)], Some(1), 1, 1)

  lemma MissingRowHidesAChange()
    ensures Run(INITIAL, UNNOTICED) == UNSEEN
    ensures Commits(UNSEEN, Finalize(1, 0))
    ensures !UNSEEN.holders[1].built.value.rowExisted && UNSEEN.holders[1].built.value.readAt < UNSEEN.changes
  {
    UnnoticedRun();
  }

  lemma UnnoticedRun()
    ensures Run(INITIAL, UNNOTICED) == UNSEEN
  {
    var s1 := INITIAL.(row := Some(Row(0, Job(Queued, 0, None, 0, None, None, None))), nextId := 1);
    var s2 := s1.(snapshots := {Generations(0, -1)});
    var s3 := s2.(pending := map[1 := Pending(0, 0)]);
    var s4 := s2.(row := UNSEEN.row, holders := map[1 := Holder(0, 1, None, false)], owner := Some(1));
    var s5 := s4.(holders := map[1 := Holder(0, 1, Some(Built(0, false, 0)), false)]);
    var s6 := s5.(changes := 1);
    var s7 := s6.(state := UNSEEN.state, writtenAt := 1);
    assert Step(s3, MarkClaim(1, 0)) == s4;
    assert Step(s4, ReadGeneration(1)) == s5;
    assert Step(s7, CheckGeneration(1)) == UNSEEN;
    RunOf(UNNOTICED, [INITIAL, s1, s2, s3, s4, s5, s6, s7, UNSEEN]);
  }
}
