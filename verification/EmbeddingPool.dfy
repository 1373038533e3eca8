/**
 Embedding a batch of assets, one after another or by a pool of workers that share an
 unbuffered channel of indices, an error slot per index, and the first fatal error.

 The pool is a state machine whose steps interleave freely with each other and with a
 cancellation from outside; embedding an asset gives a vector or an input error, or stops
 the batch with a fatal error at any time.
 */
module EmbeddingPool {
  import opened Wrappers

  /** What embedding an asset gives when nothing fatal happens. */
  datatype Outcome = Vector(value: int) | InputError(message: string)

  /** One attempt: an outcome, or an error that stops the batch. */
  datatype Attempt = Done(outcome: Outcome) | Fatal(error: string)

  datatype Embedded = Embedded(index: nat, vector: int)

  datatype Failure = Failure(index: nat, message: string)

  datatype Batch = Batch(embedded: seq<Embedded>, failed: seq<Failure>)

  // -------------------------------------------------------------------------- partition

  /** The slots of a finished batch, divided by outcome. */
  function Divided(slots: seq<Outcome>): Batch {
    if slots == [] then Batch([], [])
    else
      var n := |slots| - 1;
      var before := Divided(slots[..n]);
      match slots[n]
      case Vector(v) => before.(embedded := before.embedded + [Embedded(n, v)])
      case InputError(m) => before.(failed := before.failed + [Failure(n, m)])
  }

  method Divide(slots: seq<Outcome>) returns (batch: Batch)
    ensures batch == Divided(slots)
  {
    var embedded, failed := [], [];
    for n := 0 to |slots|
      invariant Batch(embedded, failed) == Divided(slots[..n])
    {
      assert slots[..n + 1][..n] == slots[..n];
      match slots[n] {
        case Vector(v) => embedded := embedded + [Embedded(n, v)];
        case InputError(m) => failed := failed + [Failure(n, m)];
      }
    }
    assert slots[..|slots|] == slots;
    batch := Batch(embedded, failed);
  }

  /** Both parts keep the order of the assets, and every asset is in exactly one of them. */
  lemma {:induction false} DividedIsOrderedPartition(slots: seq<Outcome>)
    ensures var b := Divided(slots);
            && |b.embedded| + |b.failed| == |slots|
            && (forall i, j | 0 <= i < j < |b.embedded| :: b.embedded[i].index < b.embedded[j].index)
            && (forall i, j | 0 <= i < j < |b.failed| :: b.failed[i].index < b.failed[j].index)
            && (forall e :: e in b.embedded <==> e.index < |slots| && slots[e.index] == Vector(e.vector))
            && (forall f :: f in b.failed <==> f.index < |slots| && slots[f.index] == InputError(f.message))
  {
    if slots != [] {
      var n := |slots| - 1;
      DividedIsOrderedPartition(slots[..n]);
      DividedNext(slots, n);
      if slots[n].Vector? {
        EmbeddedNext(slots, n);
      } else {
        FailedNext(slots, n);
      }
    }
  }

  lemma DividedNext(slots: seq<Outcome>, n: nat)
    requires |slots| == n + 1
    ensures Divided(slots) ==
              match slots[n]
              case Vector(v) => Divided(slots[..n]).(embedded := Divided(slots[..n]).embedded + [Embedded(n, v)])
              case InputError(m) => Divided(slots[..n]).(failed := Divided(slots[..n]).failed + [Failure(n, m)])
  {
  }

  lemma EmbeddedNext(slots: seq<Outcome>, n: nat)
    requires |slots| == n + 1 && slots[n].Vector?
    requires forall e :: e in Divided(slots[..n]).embedded <==> e.index < n && slots[..n][e.index] == Vector(e.vector)
    ensures forall e :: e in Divided(slots[..n]).embedded + [Embedded(n, slots[n].value)]
                        <==> e.index < n + 1 && slots[e.index] == Vector(e.vector)
    ensures forall i | 0 <= i < |Divided(slots[..n]).embedded| :: Divided(slots[..n]).embedded[i].index < n
  {
    forall i | 0 <= i < |Divided(slots[..n]).embedded| ensures Divided(slots[..n]).embedded[i].index < n {
      assert Divided(slots[..n]).embedded[i] in Divided(slots[..n]).embedded;
    }
  }

  lemma FailedNext(slots: seq<Outcome>, n: nat)
    requires |slots| == n + 1 && slots[n].InputError?
    requires forall f :: f in Divided(slots[..n]).failed
                         <==> f.index < n && slots[..n][f.index] == InputError(f.message)
    ensures forall f :: f in Divided(slots[..n]).failed + [Failure(n, slots[n].message)]
                        <==> f.index < n + 1 && slots[f.index] == InputError(f.message)
    ensures forall i | 0 <= i < |Divided(slots[..n]).failed| :: Divided(slots[..n]).failed[i].index < n
  {
    forall i | 0 <= i < |Divided(slots[..n]).failed| ensures Divided(slots[..n]).failed[i].index < n {
      assert Divided(slots[..n]).failed[i] in Divided(slots[..n]).failed;
    }
  }

  // -------------------------------------------------------------------- one after another

  function OutcomesOf(attempts: seq<Attempt>): seq<Outcome>
    requires forall i | 0 <= i < |attempts| :: attempts[i].Done?
  {
    seq(|attempts|, i requires 0 <= i < |attempts| => attempts[i].outcome)
  }

  /** The sequential branch: the first fatal attempt ends the batch. */
  method EmbedSequentially(attempts: seq<Attempt>) returns (result: Result<Batch, string>)
    ensures result.Ok? <==> forall i | 0 <= i < |attempts| :: attempts[i].Done?
    ensures result.Ok? ==> result.value == Divided(OutcomesOf(attempts))
    ensures result.Err? ==> exists i | 0 <= i < |attempts| ::
              attempts[i] == Fatal(result.error) && forall k | 0 <= k < i :: attempts[k].Done?
  {
    var slots: seq<Outcome> := [];
    for n := 0 to |attempts|
      invariant |slots| == n
      invariant forall i | 0 <= i < n :: attempts[i] == Done(slots[i])
    {
      match attempts[n] {
        case Fatal(error) => return Err(error);
        case Done(outcome) => slots := slots + [outcome];
      }
    }
    var batch := Divide(slots);
    assert slots == OutcomesOf(attempts);
    result := Ok(batch);
  }

  // --------------------------------------------------------------------------- the pool

  /** `handed` and `finished` are history: how often an index was received and completed. */
  datatype Pool = Pool(
    next: nat,
    open: bool,
    workers: map<int, Option<nat>>,
    slots: map<nat, Outcome>,
    fatal: Option<string>,
    canceled: bool,
    handed: map<nat, nat>,
    finished: map<nat, nat>
  )

  datatype Step =
    | Send(worker: int)
    | StopSending
    | Close
    | Complete(worker: int)
    | Abort(worker: int, error: string)
    | Cancel

  function Count(m: map<nat, nat>, i: nat): nat {
    if i in m then m[i] else 0
  }

  /** The pool's context: canceled from outside or by the first fatal error. */
  predicate WorkDone(p: Pool) {
    p.canceled || p.fatal.Some?
  }

  predicate Busy(p: Pool, worker: int) {
    worker in p.workers && p.workers[worker].Some?
  }

  predicate Enabled(p: Pool, n: nat, s: Step) {
    match s
    case Send(w) => p.open && p.next < n && w in p.workers && p.workers[w].None?
    case StopSending => p.open && p.next < n && WorkDone(p)
    case Close => p.open && p.next == n
    case Complete(w) => Busy(p, w)
    case Abort(w, _) => Busy(p, w)
    case Cancel => !p.canceled
  }

  /** The outcomes are those of the assets, whoever embeds them. */
  function After(p: Pool, n: nat, outcomes: seq<Outcome>, s: Step): Pool
    requires |outcomes| == n && Enabled(p, n, s)
    requires s.Complete? ==> p.workers[s.worker].value < n
  {
    match s
    case Send(w) =>
      p.(next := p.next + 1, workers := p.workers[w := Some(p.next)],
         handed := p.handed[p.next := Count(p.handed, p.next) + 1])
    case StopSending => p.(open := false)
    case Close => p.(open := false)
    case Complete(w) =>
      var i := p.workers[w].value;
      p.(workers := p.workers[w := None], slots := p.slots[i := outcomes[i]],
         finished := p.finished[i := Count(p.finished, i) + 1])
    case Abort(w, error) =>
      p.(workers := p.workers[w := None], fatal := if p.fatal.Some? then p.fatal else Some(error))
    case Cancel => p.(canceled := true)
  }

  /** Busy workers have different indices, all handed out and none completed. */
  ghost predicate Exclusive(p: Pool) {
    && (forall w | Busy(p, w) :: p.workers[w].value < p.next && Count(p.finished, p.workers[w].value) == 0)
    && (forall v, w | Busy(p, v) && Busy(p, w) && p.workers[v] == p.workers[w] :: v == w)
  }

  ghost predicate Counted(p: Pool) {
    forall i: nat :: Count(p.handed, i) == (if i < p.next then 1 else 0) && Count(p.finished, i) <= Count(p.handed, i)
  }

  ghost predicate Filled(p: Pool, outcomes: seq<Outcome>) {
    forall i: nat :: (i in p.slots <==> Count(p.finished, i) == 1)
        && (i in p.slots ==> i < |outcomes| && p.slots[i] == outcomes[i])
  }

  ghost predicate NothingLost(p: Pool) {
    p.fatal.None? ==> forall i: nat | i < p.next && Count(p.finished, i) == 0 :: InWork(p, i)
  }

  ghost predicate Inv(p: Pool, n: nat, outcomes: seq<Outcome>) {
    && |outcomes| == n && p.next <= n
    && (!p.open && p.next < n ==> WorkDone(p))
    && Exclusive(p) && Counted(p) && Filled(p, outcomes) && NothingLost(p)
  }

  ghost predicate InWork(p: Pool, i: nat) {
    exists w :: w in p.workers && p.workers[w] == Some(i)
  }

  function Start(workers: set<int>): Pool {
    Pool(0, true, map w | w in workers :: None, map[], None, false, map[], map[])
  }

  lemma StartIsValid(workers: set<int>, outcomes: seq<Outcome>)
    ensures Inv(Start(workers), |outcomes|, outcomes)
  {
  }

  lemma StepKeepsInv(p: Pool, n: nat, outcomes: seq<Outcome>, s: Step)
    requires Inv(p, n, outcomes) && Enabled(p, n, s)
    ensures Inv(After(p, n, outcomes, s), n, outcomes)
  {
    var q := After(p, n, outcomes, s);
    StepKeepsCounts(p, n, outcomes, s);
    StepKeepsExclusive(p, n, outcomes, s);
    if q.fatal.None? {
      forall i: nat | i < q.next && Count(q.finished, i) == 0 ensures InWork(q, i) {
        StillInWork(p, n, outcomes, s, i);
      }
    }
  }

  lemma StepKeepsCounts(p: Pool, n: nat, outcomes: seq<Outcome>, s: Step)
    requires Inv(p, n, outcomes) && Enabled(p, n, s)
    ensures Counted(After(p, n, outcomes, s)) && Filled(After(p, n, outcomes, s), outcomes)
  {
    var q := After(p, n, outcomes, s);
    forall i: nat
      ensures Count(q.handed, i) == (if i < q.next then 1 else 0) && Count(q.finished, i) <= Count(q.handed, i)
      ensures (i in q.slots <==> Count(q.finished, i) == 1)
          && (i in q.slots ==> i < |outcomes| && q.slots[i] == outcomes[i])
    {
      assert Count(p.handed, i) == (if i < p.next then 1 else 0);
      assert i in p.slots <==> Count(p.finished, i) == 1;
    }
  }

  lemma StepKeepsExclusive(p: Pool, n: nat, outcomes: seq<Outcome>, s: Step)
    requires Inv(p, n, outcomes) && Enabled(p, n, s)
    ensures Exclusive(After(p, n, outcomes, s))
  {
    var q := After(p, n, outcomes, s);
    assert Count(p.handed, p.next) == 0;
    forall w | Busy(q, w) ensures q.workers[w].value < q.next && Count(q.finished, q.workers[w].value) == 0 {
      assert s.Send? || Busy(p, w);
    }
    forall v, w | Busy(q, v) && Busy(q, w) && q.workers[v] == q.workers[w] ensures v == w {
    }
  }

  lemma StillInWork(p: Pool, n: nat, outcomes: seq<Outcome>, s: Step, i: nat)
    requires Inv(p, n, outcomes) && Enabled(p, n, s)
    requires var q := After(p, n, outcomes, s); q.fatal.None? && i < q.next && Count(q.finished, i) == 0
    ensures InWork(After(p, n, outcomes, s), i)
  {
    var q := After(p, n, outcomes, s);
    if i == p.next {
      assert q.workers[s.worker] == Some(i);
    } else {
      assert Count(p.finished, i) == 0;
      assert InWork(p, i);
      var w :| w in p.workers && p.workers[w] == Some(i);
      assert q.workers[w] == Some(i);
    }
  }

  /** A run of the pool. */
  ghost predicate Run(states: seq<Pool>, steps: seq<Step>, n: nat, outcomes: seq<Outcome>) {
    && |states| == |steps| + 1 && |outcomes| == n
    && (forall k | 0 <= k < |steps| ::
          && Enabled(states[k], n, steps[k])
          && (steps[k].Complete? ==> states[k].workers[steps[k].worker].value < n)
          && states[k + 1] == After(states[k], n, outcomes, steps[k]))
  }

  lemma {:induction false} RunKeepsInv(
      states: seq<Pool>, steps: seq<Step>, outcomes: seq<Outcome>, workers: set<int>, k: nat)
    requires Run(states, steps, |outcomes|, outcomes) && states[0] == Start(workers) && k <= |steps|
    ensures Inv(states[k], |outcomes|, outcomes)
  {
    if k == 0 {
      StartIsValid(workers, outcomes);
    } else {
      RunKeepsInv(states, steps, outcomes, workers, k - 1);
      StepKeepsInv(states[k - 1], |outcomes|, outcomes, steps[k - 1]);
    }
  }

  /** The channel is closed and every worker has returned. */
  predicate Finished(p: Pool) {
    !p.open && forall w | w in p.workers :: p.workers[w].None?
  }

  /** What the pool returns then; the error slots of unprocessed assets never matter. */
  function Outcomes(p: Pool, n: nat): seq<Outcome>
    requires forall i: nat | i < n :: i in p.slots
  {
    seq(n, i requires 0 <= i < n => p.slots[i])
  }

  /**
   However the steps interleave: a pool that finishes without a fatal error or cancellation
   has handed out and completed every asset exactly once, and returns what the sequential
   branch returns.
   */
  lemma SuccessIsSequential(states: seq<Pool>, steps: seq<Step>, outcomes: seq<Outcome>, workers: set<int>)
    requires Run(states, steps, |outcomes|, outcomes) && states[0] == Start(workers)
    requires Finished(states[|steps|]) && !WorkDone(states[|steps|])
    ensures var end := states[|steps|];
            && (forall i: nat | i < |outcomes| :: Count(end.handed, i) == 1 && Count(end.finished, i) == 1)
            && (forall i: nat | i < |outcomes| :: i in end.slots)
            && Divided(Outcomes(end, |outcomes|)) == Divided(outcomes)
  {
    RunKeepsInv(states, steps, outcomes, workers, |steps|);
    var end := states[|steps|];
    forall i: nat | i < |outcomes| ensures Count(end.handed, i) == 1 && Count(end.finished, i) == 1 && i in end.slots {
      NobodyAtWork(end, i);
      assert Count(end.handed, i) == 1;
    }
    assert Outcomes(end, |outcomes|) == outcomes;
  }

  lemma NobodyAtWork(p: Pool, i: nat)
    requires Finished(p)
    ensures !InWork(p, i)
  {
  }

  /** No two workers ever write to the same asset or error slot. */
  lemma WorkersAreDisjoint(
      states: seq<Pool>, steps: seq<Step>, outcomes: seq<Outcome>, workers: set<int>, k: nat, v: int, w: int)
    requires Run(states, steps, |outcomes|, outcomes) && states[0] == Start(workers) && k <= |steps|
    requires Busy(states[k], v) && Busy(states[k], w) && v != w
    ensures states[k].workers[v].value != states[k].workers[w].value
  {
    RunKeepsInv(states, steps, outcomes, workers, k);
  }

  // ------------------------------------------------------------------------ termination

  function BusyWorkers(p: Pool): set<int> {
    set w | w in p.workers && p.workers[w].Some?
  }

  function Remaining(p: Pool, n: nat): int {
    2 * (n - p.next) + |BusyWorkers(p)| + (if p.open then 1 else 0) + (if p.canceled then 0 else 1)
  }

  /** Every step brings the pool closer to its end, so all runs are finite. */
  lemma StepsAreBounded(p: Pool, n: nat, outcomes: seq<Outcome>, s: Step)
    requires Inv(p, n, outcomes) && Enabled(p, n, s)
    ensures 0 <= Remaining(After(p, n, outcomes, s), n) < Remaining(p, n)
  {
    match s
    case Send(w) => WorkerTakes(p, After(p, n, outcomes, s), w, p.next);
    case Complete(w) => WorkerReturns(p, After(p, n, outcomes, s), w);
    case Abort(w, _) => WorkerReturns(p, After(p, n, outcomes, s), w);
    case _ =>
  }

  lemma WorkerTakes(p: Pool, q: Pool, w: int, i: nat)
    requires w in p.workers && p.workers[w].None? && q.workers == p.workers[w := Some(i)]
    ensures |BusyWorkers(q)| == |BusyWorkers(p)| + 1
  {
    assert BusyWorkers(q) == BusyWorkers(p) + {w} && w !in BusyWorkers(p);
  }

  lemma WorkerReturns(p: Pool, q: Pool, w: int)
    requires Busy(p, w) && q.workers == p.workers[w := None]
    ensures |BusyWorkers(q)| == |BusyWorkers(p)| - 1
  {
    assert w in BusyWorkers(p) && BusyWorkers(q) == BusyWorkers(p) - {w};
  }

  /** The sender gives up before the last asset only after a fatal error or a cancellation, and then it can. */
  lemma GivesUpIffWorkIsDone(p: Pool, n: nat, outcomes: seq<Outcome>)
    requires Inv(p, n, outcomes) && p.next < n
    ensures Enabled(p, n, StopSending) <==> p.open && (p.canceled || p.fatal.Some?)
    ensures !p.open ==> p.canceled || p.fatal.Some?
  {
  }

  /** With at least one worker the pool never blocks before its end. */
  lemma NeverBlocks(p: Pool, n: nat, outcomes: seq<Outcome>, worker: int)
    requires Inv(p, n, outcomes) && worker in p.workers && !Finished(p)
    ensures exists s :: Enabled(p, n, s) && !s.Cancel?
  {
    if w :| w in p.workers && p.workers[w].Some? {
      assert Enabled(p, n, Complete(w));
    } else if p.next == n {
      assert Enabled(p, n, Close);
    } else {
      assert Enabled(p, n, Send(worker));
    }
  }
}
