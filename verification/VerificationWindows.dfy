/**
 Daily content-verification windows of one root: an occurrence is started or skipped at most
 once, slices add to the counters of the window they read, and windows end by completion,
 by expiry, or because a new root identity was accepted. Each function is one guarded SQL
 statement; instants are integers.
 */
module VerificationWindows {
  import opened Wrappers

  datatype Status = Idle | Running | Completed | Skipped

  datatype Tally = Tally(processed: nat, verified: nat, changed: nat, failed: nat, bytes: nat)

  const ZERO := Tally(0, 0, 0, 0, 0)

  datatype Root = Root(
    status: Status,
    scheduledAt: Option<int>,
    startedAt: Option<int>,
    deadlineAt: Option<int>,
    lastAt: Option<int>,
    tally: Tally,
    generation: nat,
    pending: bool
  )

  datatype Window = Window(scheduledAt: int, startedAt: int, deadlineAt: int)

  // ------------------------------------------------------------------------- statements

  predicate Admits(r: Root, scheduledAt: int) {
    r.status != Running && (r.scheduledAt.None? || r.scheduledAt.value < scheduledAt)
  }

  predicate Starts(r: Root, scheduledAt: int, deadlineAt: int) {
    deadlineAt > scheduledAt && !r.pending && Admits(r, scheduledAt)
  }

  function StartWindow(r: Root, scheduledAt: int, deadlineAt: int, now: int): Root {
    if Starts(r, scheduledAt, deadlineAt)
    then r.(status := Running, scheduledAt := Some(scheduledAt), startedAt := Some(now), deadlineAt := Some(deadlineAt),
        tally := ZERO)
    else r
  }

  function SkipWindow(r: Root, scheduledAt: int, now: int): Root {
    if Admits(r, scheduledAt)
    then r.(status := Skipped, scheduledAt := Some(scheduledAt), startedAt := None, deadlineAt := None,
        lastAt := Some(now), tally := ZERO)
    else r
  }

  function Closed(r: Root, status: Status, at: int): Root {
    r.(status := status, startedAt := None, deadlineAt := None, lastAt := Some(at))
  }

  function FinalizeExpired(r: Root, now: int): Root {
    if r.status == Running && r.deadlineAt.Some? && r.deadlineAt.value <= now then Closed(r, Completed, now) else r
  }

  function CancelForNewRoot(r: Root, now: int): Root {
    if r.status == Running then Closed(r, Skipped, now) else r
  }

  /** The window a slice works for; none unless one is running. */
  function CurrentWindow(r: Root): Option<Window> {
    if r.status == Running && r.scheduledAt.Some? && r.startedAt.Some? && r.deadlineAt.Some?
    then Some(Window(r.scheduledAt.value, r.startedAt.value, r.deadlineAt.value))
    else None
  }

  predicate Owns(r: Root, w: Window) {
    r.scheduledAt == Some(w.scheduledAt) && r.startedAt == Some(w.startedAt)
  }

  function Plus(a: Tally, b: Tally): Tally {
    Tally(a.processed + b.processed, a.verified + b.verified, a.changed + b.changed, a.failed + b.failed,
        a.bytes + b.bytes)
  }

  predicate Records(r: Root, w: Window) {
    r.status == Running && Owns(r, w)
  }

  function RecordProgress(r: Root, w: Window, t: Tally): Root {
    if Records(r, w) then r.(tally := Plus(r.tally, t)) else r
  }

  function CompleteWindow(r: Root, w: Window, at: int): Root {
    if Owns(r, w) then Closed(r, Completed, at) else r
  }

  // ------------------------------------------------------------------------------- runs

  datatype Kind = Verified | Changed | Failed | Unrecorded

  /** What one slice reports: no file, one file, or a root that is not trusted. */
  datatype Contribution = NoFile | File(kind: Kind, bytes: nat) | Untrusted

  function One(condition: bool): nat {
    if condition then 1 else 0
  }

  function TallyOf(c: Contribution): Tally {
    match c
    case NoFile => ZERO
    case File(kind, bytes) =>
      Tally(1, One(kind == Verified), One(kind == Changed), One(kind == Failed), bytes)
    case Untrusted => Tally(0, 0, 0, 1, 0)
  }

  datatype Entry = Entry(window: Window, contribution: Contribution)

  /** `admitted` and `ledger` are history: the occurrences taken and the contributions accepted. */
  datatype World = World(root: Root, admitted: seq<int>, ledger: seq<Entry>)

  const INITIAL := World(Root(Idle, None, None, None, None, ZERO, 0, false), [], [])

  datatype Action =
    | Start(scheduledAt: int, deadlineAt: int, now: int)
    | Skip(scheduledAt: int, now: int)
    | Expire(now: int)
    | AcceptRoot(now: int)
    | SetPending(pending: bool)
    | Record(window: Window, contribution: Contribution)
    | Complete(window: Window, at: int)
    | CloseUntrusted(window: Window, at: int)

  function Accept(w: World, window: Window, c: Contribution): World {
    World(RecordProgress(w.root, window, TallyOf(c)), w.admitted,
          if Records(w.root, window) then w.ledger + [Entry(window, c)] else w.ledger)
  }

  /** A slice that finds the root untrusted records it and closes the window, unless it crashes in between. */
  function Step(w: World, a: Action): World {
    match a
    case Start(scheduledAt, deadlineAt, now) =>
      World(StartWindow(w.root, scheduledAt, deadlineAt, now),
            if Starts(w.root, scheduledAt, deadlineAt) then w.admitted + [scheduledAt] else w.admitted, w.ledger)
    case Skip(scheduledAt, now) =>
      World(SkipWindow(w.root, scheduledAt, now),
            if Admits(w.root, scheduledAt) then w.admitted + [scheduledAt] else w.admitted, w.ledger)
    case Expire(now) => w.(root := FinalizeExpired(w.root, now))
    case AcceptRoot(now) => w.(root := CancelForNewRoot(w.root, now).(generation := w.root.generation + 1,
        pending := true))
    case SetPending(pending) => w.(root := w.root.(pending := pending))
    case Record(window, c) => Accept(w, window, c)
    case Complete(window, at) => w.(root := CompleteWindow(w.root, window, at))
    case CloseUntrusted(window, at) =>
      var after := Accept(w, window, Untrusted);
      after.(root := CompleteWindow(after.root, window, at))
  }

  function States(w: World, actions: seq<Action>): (states: seq<World>)
    ensures |states| == |actions| + 1 && states[0] == w
    ensures forall k | 0 <= k < |actions| :: states[k + 1] == Step(states[k], actions[k])
    decreases |actions|
  {
    if actions == [] then [w] else [w] + States(Step(w, actions[0]), actions[1..])
  }

  /** The sum of the accepted contributions of one occurrence. */
  function Sum(ledger: seq<Entry>, scheduledAt: int): Tally {
    if ledger == [] then ZERO
    else
      var last := ledger[|ledger| - 1];
      var before := Sum(ledger[..|ledger| - 1], scheduledAt);
      if last.window.scheduledAt == scheduledAt then Plus(before, TallyOf(last.contribution)) else before
  }

  function Distrusted(ledger: seq<Entry>, scheduledAt: int): nat {
    if ledger == [] then 0
    else
      var last := ledger[|ledger| - 1];
      Distrusted(ledger[..|ledger| - 1], scheduledAt)
      + One(last.window.scheduledAt == scheduledAt && last.contribution == Untrusted)
  }

  lemma SumNext(ledger: seq<Entry>, e: Entry, scheduledAt: int)
    ensures Sum(ledger + [e], scheduledAt)
         == if e.window.scheduledAt == scheduledAt
            then Plus(Sum(ledger, scheduledAt), TallyOf(e.contribution))
            else Sum(ledger, scheduledAt)
  {
    assert (ledger + [e])[..|ledger|] == ledger;
  }

  lemma DistrustNext(ledger: seq<Entry>, e: Entry, scheduledAt: int)
    ensures Distrusted(ledger + [e], scheduledAt)
         == Distrusted(ledger, scheduledAt) + One(e.window.scheduledAt == scheduledAt && e.contribution == Untrusted)
  {
    assert (ledger + [e])[..|ledger|] == ledger;
  }

  lemma {:induction false} NothingOf(ledger: seq<Entry>, scheduledAt: int)
    requires forall e | e in ledger :: e.window.scheduledAt != scheduledAt
    ensures Sum(ledger, scheduledAt) == ZERO && Distrusted(ledger, scheduledAt) == 0
  {
    if ledger != [] {
      var n := |ledger| - 1;
      assert ledger[n] in ledger;
      NothingOf(ledger[..n], scheduledAt);
    }
  }

  predicate Increasing(s: seq<int>) {
    forall i, j | 0 <= i < j < |s| :: s[i] < s[j]
  }

  /** The counters are exactly the contributions of the current occurrence, and occurrences only move forward. */
  predicate Inv(w: World) {
    var r := w.root;
    && (r.status == Running <==> r.startedAt.Some?)
    && (r.startedAt.Some? <==> r.deadlineAt.Some?)
    && (r.scheduledAt.None? <==> w.admitted == [])
    && (r.startedAt.Some? ==> r.scheduledAt.Some?)
    && Increasing(w.admitted)
    && (r.scheduledAt.None? ==> w.ledger == [] && r.tally == ZERO)
    && (r.scheduledAt.Some? ==>
          && w.admitted[|w.admitted| - 1] == r.scheduledAt.value
          && (forall e | e in w.ledger :: e.window.scheduledAt <= r.scheduledAt.value)
          && r.tally == Sum(w.ledger, r.scheduledAt.value))
  }

  lemma AcceptKeepsInv(w: World, window: Window, c: Contribution)
    requires Inv(w)
    ensures Inv(Accept(w, window, c))
  {
    SumNext(w.ledger, Entry(window, c), window.scheduledAt);
  }

  lemma StepKeepsInv(w: World, a: Action)
    requires Inv(w)
    ensures Inv(Step(w, a))
  {
    match a
    case Start(scheduledAt, _, _) =>
      if Admits(w.root, scheduledAt) { NothingOf(w.ledger, scheduledAt); }
    case Skip(scheduledAt, _) =>
      if Admits(w.root, scheduledAt) { NothingOf(w.ledger, scheduledAt); }
    case Record(window, c) => AcceptKeepsInv(w, window, c);
    case CloseUntrusted(window, _) => AcceptKeepsInv(w, window, Untrusted);
    case _ =>
  }

  lemma {:induction false} RunKeepsInv(actions: seq<Action>, k: nat)
    requires k <= |actions|
    ensures Inv(States(INITIAL, actions)[k])
  {
    if k > 0 {
      RunKeepsInv(actions, k - 1);
      StepKeepsInv(States(INITIAL, actions)[k - 1], actions[k - 1]);
    }
  }

  /** What ends a running window: its deadline, a new root, or its own slices. */
  predicate Ends(v: Window, a: Action) {
    || (a.Expire? && v.deadlineAt <= a.now)
    || a.AcceptRoot?
    || ((a.Complete? || a.CloseUntrusted?)
        && a.window.scheduledAt == v.scheduledAt && a.window.startedAt == v.startedAt)
  }

  /**
   A running window stays as it is until something ends it, and a window starts, with fresh
   counters, only for a newer occurrence with time left and no root waiting for its scan. A
   new root waits for its scan under the next generation.
   */
  lemma WindowChangesExactlyWhen(w: World, a: Action)
    requires Inv(w)
    ensures var now, after := CurrentWindow(w.root), CurrentWindow(Step(w, a).root);
            && (now.Some? ==> after == if Ends(now.value, a) then None else now)
            && (now.None? ==>
                  && (after.Some? <==>
                        && a.Start? && a.scheduledAt < a.deadlineAt && !w.root.pending
                        && forall s | s in w.admitted :: s < a.scheduledAt)
                  && (after.Some? ==>
                        after == Some(Window(a.scheduledAt, a.now, a.deadlineAt)) && Step(w, a).root.tally == ZERO))
    ensures Step(w, a).root.generation == w.root.generation + One(a.AcceptRoot?)
    ensures Step(w, a).root.pending == if a.SetPending? then a.pending else a.AcceptRoot? || w.root.pending
    ensures var now, after := CurrentWindow(w.root), Step(w, a).root;
            if now.Some? && Ends(now.value, a) then
              && after.status == (if a.AcceptRoot? then Skipped else Completed)
              && after.lastAt == Some(if a.Expire? || a.AcceptRoot? then a.now else a.at)
            else if now.None? && a.Skip? && forall s | s in w.admitted :: s < a.scheduledAt then
              after.status == Skipped && after.lastAt == Some(a.now) && after.tally == ZERO
            else
              && after.status == (if CurrentWindow(after).Some? then Running else w.root.status)
              && after.lastAt == w.root.lastAt
  {
    if w.root.scheduledAt.Some? {
      assert w.root.scheduledAt.value in w.admitted;
    }
  }

  /** In every run occurrences are admitted in increasing order, hence each at most once. */
  lemma EachOccurrenceOnce(actions: seq<Action>, k: nat)
    requires k <= |actions|
    ensures Increasing(States(INITIAL, actions)[k].admitted)
  {
    RunKeepsInv(actions, k);
  }

  lemma {:induction false} AdmittedGrows(actions: seq<Action>, i: nat, j: nat)
    requires i <= j <= |actions|
    ensures var a, b := States(INITIAL, actions)[i].admitted, States(INITIAL, actions)[j].admitted;
            |a| <= |b| && a == b[..|a|]
  {
    if i < j {
      AdmittedGrows(actions, i, j - 1);
    }
  }

  /**
   A slice of an old window never adds to a newer one: once another occurrence has been
   admitted, recording for the old window changes nothing and completing it changes nothing.
   */
  lemma OldWindowIsFenced(actions: seq<Action>, i: nat, j: nat, w: Window, t: Tally, at: int)
    requires i <= j <= |actions|
    requires CurrentWindow(States(INITIAL, actions)[i].root) == Some(w)
    requires |States(INITIAL, actions)[i].admitted| < |States(INITIAL, actions)[j].admitted|
    ensures RecordProgress(States(INITIAL, actions)[j].root, w, t) == States(INITIAL, actions)[j].root
    ensures CompleteWindow(States(INITIAL, actions)[j].root, w, at) == States(INITIAL, actions)[j].root
  {
    RunKeepsInv(actions, i);
    RunKeepsInv(actions, j);
    AdmittedGrows(actions, i, j);
    var before, after := States(INITIAL, actions)[i], States(INITIAL, actions)[j];
    assert after.admitted[|before.admitted| - 1] == w.scheduledAt;
    assert w.scheduledAt < after.admitted[|after.admitted| - 1];
  }

  // --------------------------------------------------------------------------- counters

  /** Files of an occurrence that were processed without any outcome. */
  function UnrecordedFiles(ledger: seq<Entry>, scheduledAt: int): nat {
    if ledger == [] then 0
    else
      var last := ledger[|ledger| - 1];
      UnrecordedFiles(ledger[..|ledger| - 1], scheduledAt)
      + One(last.window.scheduledAt == scheduledAt && last.contribution.File? && last.contribution.kind == Unrecorded)
  }

  lemma {:induction false} SumBalances(ledger: seq<Entry>, scheduledAt: int)
    ensures var t := Sum(ledger, scheduledAt);
            t.verified + t.changed + t.failed + UnrecordedFiles(ledger, scheduledAt)
                == t.processed + Distrusted(ledger, scheduledAt)
  {
    if ledger != [] {
      SumBalances(ledger[..|ledger| - 1], scheduledAt);
    }
  }

  function Outcomes(t: Tally): nat {
    t.verified + t.changed + t.failed
  }

  /**
   In every run each processed file has one outcome or none, and each outcome without a file
   is a slice that found the root untrusted.
   */
  lemma OutcomesBalance(actions: seq<Action>, k: nat)
    requires k <= |actions|
    ensures var w := States(INITIAL, actions)[k];
            var t := w.root.tally;
            w.root.scheduledAt.Some? ==>
              Outcomes(t) + UnrecordedFiles(w.ledger, w.root.scheduledAt.value)
              == t.processed + Distrusted(w.ledger, w.root.scheduledAt.value)
  {
    RunKeepsInv(actions, k);
    var w := States(INITIAL, actions)[k];
    if w.root.scheduledAt.Some? {
      SumBalances(w.ledger, w.root.scheduledAt.value);
    }
  }

  /**
   In every run the outcomes exceed the processed files by at most one if and only if at most
   one slice more found the root untrusted than files went without an outcome.
   */
  lemma OutcomesWithinOneIff(actions: seq<Action>, k: nat)
    requires k <= |actions|
    requires States(INITIAL, actions)[k].root.scheduledAt.Some?
    ensures var w := States(INITIAL, actions)[k];
            var scheduledAt := w.root.scheduledAt.value;
            Outcomes(w.root.tally) <= w.root.tally.processed + 1
            <==> Distrusted(w.ledger, scheduledAt) <= 1 + UnrecordedFiles(w.ledger, scheduledAt)
  {
    OutcomesBalance(actions, k);
  }

  /** No slice stops between recording an untrusted root and closing the window. */
  predicate ClosesAtOnce(actions: seq<Action>) {
    forall a | a in actions && a.Record? :: a.contribution != Untrusted
  }

  predicate AtMostOneDistrust(w: World) {
    w.root.scheduledAt.Some? ==>
      var n := Distrusted(w.ledger, w.root.scheduledAt.value);
      n <= 1 && (w.root.status == Running ==> n == 0)
  }

  lemma StepKeepsDistrust(w: World, a: Action)
    requires Inv(w) && AtMostOneDistrust(w) && (a.Record? ==> a.contribution != Untrusted)
    ensures AtMostOneDistrust(Step(w, a))
  {
    if a.Start? || a.Skip? {
      if Admits(w.root, a.scheduledAt) { NothingOf(w.ledger, a.scheduledAt); }
    } else if a.Record? {
      AcceptedDistrust(w, a.window, a.contribution);
    } else if a.CloseUntrusted? {
      AcceptedDistrust(w, a.window, Untrusted);
    }
  }

  /** Ordinary reports add no distrust; a distrustful one is followed by the end of its window. */
  lemma AcceptedDistrust(w: World, window: Window, c: Contribution)
    requires AtMostOneDistrust(w)
    ensures var after := Accept(w, window, c);
            && (c != Untrusted ==> AtMostOneDistrust(after))
            && (w.root.scheduledAt.Some? ==> Distrusted(after.ledger, w.root.scheduledAt.value) <= 1)
  {
    DistrustNext(w.ledger, Entry(window, c), window.scheduledAt);
  }

  lemma {:induction false} RunKeepsDistrust(actions: seq<Action>, k: nat)
    requires ClosesAtOnce(actions) && k <= |actions|
    ensures AtMostOneDistrust(States(INITIAL, actions)[k])
  {
    if k > 0 {
      RunKeepsDistrust(actions, k - 1);
      RunKeepsInv(actions, k - 1);
      assert actions[k - 1] in actions;
      StepKeepsDistrust(States(INITIAL, actions)[k - 1], actions[k - 1]);
    }
  }

  /** Without such a crash at most one outcome exceeds the processed files, and none while the window runs. */
  lemma OutcomesWithinOne(actions: seq<Action>, k: nat)
    requires ClosesAtOnce(actions) && k <= |actions|
    ensures var r := States(INITIAL, actions)[k].root;
            && Outcomes(r.tally) <= r.tally.processed + 1
            && (r.status == Running ==> Outcomes(r.tally) <= r.tally.processed)
  {
    RunKeepsInv(actions, k);
    OutcomesBalance(actions, k);
    RunKeepsDistrust(actions, k);
  }

  /** A slice that crashes after recording leaves the window open, and the next one counts again. */
  lemma CrashesCountTwice()
    ensures var w := Window(1, 1, 9);
            var r := Step(Step(Step(INITIAL, Start(1, 9, 1)), Record(w, Untrusted)), Record(w, Untrusted)).root;
            r.status == Running && r.tally.processed == 0 && r.tally.failed == 2
  {
    var w := Window(1, 1, 9);
    var started := Step(INITIAL, Start(1, 9, 1));
    assert started.root == Root(Running, Some(1), Some(1), Some(9), None, ZERO, 0, false);
    var once := Step(started, Record(w, Untrusted));
    assert once.root == started.root.(tally := Tally(0, 0, 0, 1, 0));
  }
}
