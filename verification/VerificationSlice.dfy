/**
 One verification slice: read the window, pick the next file, check it, stamp the location,
 add to the window's counters, and close the window when it is over. What the file system
 shows is a parameter; nothing else touches the tables during the slice.
 */
module VerificationSlice {
  import opened Wrappers
  import opened IntegerSets
  import opened VerificationWindows

  const BACKOFF: int := 1800

  datatype State = Active | Discovered | Missing

  /** `stat` stands for size, modification time, fast signature and file identity together. */
  datatype Location = Location(
    state: State,
    hasAsset: bool,
    sha: Option<int>,
    stat: int,
    verifiedAt: Option<int>,
    attemptedAt: Option<int>,
    error: Option<string>
  )

  type Locations = map<int, Location>

  datatype Candidate = Candidate(id: int, sha: int, stat: int, generation: nat, attemptedAt: Option<int>,
      error: Option<string>)

  /** What checking the file shows. */
  datatype Probe =
    | RootDistrusted
    | Absent
    | OpenFailed(message: string)
    | StatDiffers(stat: int)
    | Interrupted
    | HashFailed(bytes: nat, message: string)
    | SourceChanged(bytes: nat, stat: int)
    | PathFailed(bytes: nat, message: string)
    | PathReplaced(bytes: nat, stat: int)
    | Hashed(bytes: nat, sha: int)

  /** The clock readings of a slice, in the order they are taken. */
  datatype Clock = Clock(check: int, pick: int, attempt: int, stamp: int, done: int, look: int)

  datatype SliceResult = SliceResult(contribution: Option<Contribution>, complete: bool)

  predicate Earlier(o: Option<int>, cutoff: int) {
    o.None? || o.value < cutoff
  }

  /** Neither verified nor attempted since the window started. */
  predicate Waits(l: Location, cutoff: int) {
    l.state == Active && l.hasAsset && l.sha.Some? && Earlier(l.verifiedAt, cutoff) && Earlier(l.attemptedAt, cutoff)
  }

  predicate Rested(l: Location, retryBefore: int) {
    l.error.None? || l.attemptedAt.None? || l.attemptedAt.value <= retryBefore
  }

  predicate IsCandidate(l: Location, cutoff: int, now: int) {
    Waits(l, cutoff) && Rested(l, now - BACKOFF)
  }

  function Waiting(locations: Locations, cutoff: int): set<int> {
    set id | id in locations && Waits(locations[id], cutoff)
  }

  function Candidates(locations: Locations, cutoff: int, now: int): set<int> {
    set id | id in locations && IsCandidate(locations[id], cutoff, now)
  }

  /** NULL attempts first, then by attempt, then by id. */
  predicate Precedes(locations: Locations, a: int, b: int)
    requires a in locations && b in locations
  {
    var x, y := locations[a].attemptedAt, locations[b].attemptedAt;
    if x == y then a < b else x.None? || (y.Some? && x.value < y.value)
  }

  function ErrorText(message: string): Option<string> {
    if message == "" then None else Some(message)
  }

  // ------------------------------------------------------- statements on one location

  function CandidateOf(id: int, l: Location, r: Root): Candidate
    requires l.sha.Some?
  {
    Candidate(id, l.sha.value, l.stat, r.generation, l.attemptedAt, l.error)
  }

  predicate SameFile(l: Location, c: Candidate) {
    l.state == Active && l.sha == Some(c.sha)
  }

  predicate SameRoot(r: Root, c: Candidate) {
    r.generation == c.generation && !r.pending
  }

  function FailedAt(l: Location, now: int, message: string): Location {
    l.(attemptedAt := Some(now), error := ErrorText(message))
  }

  function Resettled(l: Location, stat: int, now: int): Location {
    Location(Discovered, false, None, stat, None, Some(now), None)
  }

  function Attempted(l: Location, c: Candidate, r: Root, now: int): Location {
    if SameFile(l, c) && l.stat == c.stat && SameRoot(r, c) then l.(attemptedAt := Some(now), error := None) else l
  }

  function Restored(l: Location, c: Candidate, attemptedAt: int): Location {
    if SameFile(l, c) && l.attemptedAt == Some(attemptedAt)
    then l.(attemptedAt := c.attemptedAt, error := c.error)
    else l
  }

  /** Taking an attempt back leaves the location as the candidate was read. */
  lemma RestoreUndoesAttempt(id: int, l: Location, r: Root, now: int)
    requires l.state == Active && l.sha.Some? && !r.pending
    ensures Restored(Attempted(l, CandidateOf(id, l, r), r, now), CandidateOf(id, l, r), now) == l
    ensures Attempted(l, CandidateOf(id, l, r), r, now).attemptedAt == Some(now)
  {
  }

  /** The file or its root is no longer what the candidate was read from. */
  predicate Stale(l: Location, r: Root, c: Candidate) {
    l.state != Active || l.sha != Some(c.sha) || l.stat != c.stat || r.generation != c.generation || r.pending
  }

  /** Nothing is recorded for a candidate that went stale, and another attempt is not taken back. */
  lemma StaleCandidatesAreRefused(l: Location, r: Root, c: Candidate, now: int)
    ensures Stale(l, r, c) <==> !(SameFile(l, c) && l.stat == c.stat && SameRoot(r, c))
    ensures Attempted(l, c, r, now) == if Stale(l, r, c) then l else l.(attemptedAt := Some(now), error := None)
    ensures l.state != Active || l.sha != Some(c.sha) || l.attemptedAt != Some(now) ==> Restored(l, c, now) == l
  {
  }

  /** The effect of a whole check on the location it picked, and what the slice reports; nothing when interrupted. */
  function Examine(l: Location, p: Probe, now: int): (Location, Option<Contribution>) {
    match p
    case RootDistrusted => (l, Some(Untrusted))
    case Absent => (l.(state := Missing), Some(File(Changed, 0)))
    case OpenFailed(message) => (FailedAt(l, now, message), Some(File(Failed, 0)))
    case StatDiffers(stat) => (Resettled(l, stat, now), Some(File(Changed, 0)))
    case Interrupted => (l, None)
    case HashFailed(bytes, message) => (FailedAt(l, now, message), Some(File(Failed, bytes)))
    case SourceChanged(bytes, stat) => (Resettled(l, stat, now), Some(File(Changed, bytes)))
    case PathFailed(bytes, message) => (FailedAt(l, now, message), Some(File(Failed, bytes)))
    case PathReplaced(bytes, stat) => (Resettled(l, stat, now), Some(File(Changed, bytes)))
    case Hashed(bytes, sha) =>
      if l.sha == Some(sha)
      then (l.(verifiedAt := Some(now), attemptedAt := Some(now), error := None), Some(File(Verified, bytes)))
      else (Resettled(l, l.stat, now), Some(File(Changed, bytes)))
  }

  /** A check that reports a file settles it for the window. */
  lemma ExaminedFileWaitsNoMore(l: Location, p: Probe, now: int, cutoff: int)
    requires cutoff <= now
    ensures var (after, report) := Examine(l, p, now);
            && (report.Some? && report.value.File? ==> !Waits(after, cutoff))
            && (report.None? || !report.value.File? ==> after == l)
  {
  }

  lemma FirstExists(locations: Locations, ids: set<int>)
    requires ids != {} && forall id | id in ids :: id in locations
    ensures exists m :: m in ids && forall id | id in ids && id != m :: Precedes(locations, m, id)
    decreases ids
  {
    HasElement(ids);
    var x :| x in ids;
    if ids != {x} {
      FirstExistsIn(locations, ids, x);
    }
  }

  lemma FirstExistsIn(locations: Locations, ids: set<int>, x: int)
    requires x in ids && ids != {x} && forall id | id in ids :: id in locations
    ensures exists m :: m in ids && forall id | id in ids && id != m :: Precedes(locations, m, id)
    decreases ids, 0
  {
    assert ids == (ids - {x}) + {x};
    FirstExists(locations, ids - {x});
    var m :| m in ids - {x} && forall id | id in ids - {x} && id != m :: Precedes(locations, m, id);
    var first := if Precedes(locations, m, x) then m else x;
    forall id | id in ids && id != first ensures Precedes(locations, first, id) {
      if id != x && id != m {
        assert Precedes(locations, m, id);
      }
    }
  }

  predicate IsNext(locations: Locations, cutoff: int, now: int, id: int) {
    && id in Candidates(locations, cutoff, now)
    && forall other | other in Candidates(locations, cutoff, now) && other != id :: Precedes(locations, id, other)
  }

  /** An active file with a recorded hash, neither verified nor tried since the start, and not just failed. */
  predicate Due(l: Location, startedAt: int, now: int) {
    && l.state == Active && l.hasAsset && l.sha.Some?
    && (l.verifiedAt.Some? ==> l.verifiedAt.value < startedAt)
    && (l.attemptedAt.Some? ==> l.attemptedAt.value < startedAt)
    && (l.error.Some? && l.attemptedAt.Some? ==> now - l.attemptedAt.value >= 1800)
  }

  /** Files that were never tried come first, then the longest untried, then the lowest ID. */
  predicate TurnsBefore(a: int, x: Location, b: int, y: Location) {
    match (x.attemptedAt, y.attemptedAt)
    case (None, None) => a < b
    case (None, Some(_)) => true
    case (Some(_), None) => false
    case (Some(t), Some(u)) => t < u || (t == u && a < b)
  }

  lemma NextIsFirstDue(locations: Locations, startedAt: int, now: int, id: int)
    ensures IsNext(locations, startedAt, now, id) <==>
            && id in locations && Due(locations[id], startedAt, now)
            && forall other | other in locations && other != id && Due(locations[other], startedAt, now) ::
                 TurnsBefore(id, locations[id], other, locations[other])
    ensures Candidates(locations, startedAt, now) == {} <==>
            forall other | other in locations :: !Due(locations[other], startedAt, now)
  {
    var ids := Candidates(locations, startedAt, now);
    forall other ensures other in ids <==> other in locations && Due(locations[other], startedAt, now) {
    }
    if forall other | other in locations :: !Due(locations[other], startedAt, now) {
      HasElement(ids);
    }
    forall a, b | a in ids && b in ids
      ensures Precedes(locations, a, b) <==> TurnsBefore(a, locations[a], b, locations[b])
    {
    }
  }

  /** A file that failed says why, and is due again half an hour later and not before, in whatever window. */
  lemma FailedFileRests(l: Location, p: Probe, now: int, startedAt: int, t: int)
    requires Due(l, startedAt, now) || Due(l, startedAt, t)
    requires (p.OpenFailed? || p.HashFailed? || p.PathFailed?) && p.message != ""
    ensures var (after, report) := Examine(l, p, now);
            && after.error == Some(p.message) && after.sha == l.sha && after.state == Active
            && (Due(after, startedAt, t) ==> t >= now + 1800)
            && (t >= now + 1800 && startedAt > now && Due(l, startedAt, t) ==> Due(after, startedAt, t))
  {
  }

  /** A file that changed or is gone is never due before it is registered anew: its identity is withdrawn. */
  lemma ChangedFileIsForgotten(l: Location, p: Probe, now: int, startedAt: int, t: int)
    requires Examine(l, p, now).1.Some? && Examine(l, p, now).1.value.File?
    requires Examine(l, p, now).1.value.kind == Changed
    ensures var after := Examine(l, p, now).0;
            && !Due(after, startedAt, t)
            && (p.Absent? <==> after.state == Missing)
            && (!p.Absent? ==>
                  after.state == Discovered && !after.hasAsset && after.sha.None? && after.verifiedAt.None?)
            && (p.StatDiffers? || p.SourceChanged? || p.PathReplaced? ==> after.stat == p.stat)
            && (p.Hashed? ==> after.stat == l.stat && l.sha != Some(p.sha))
  {
  }

  /** A verified file keeps its identity and is not due again in this window. */
  lemma VerifiedFileIsDone(l: Location, p: Probe, now: int, startedAt: int, t: int)
    requires p.Hashed? && l.sha == Some(p.sha)
    ensures var after := Examine(l, p, now).0;
            && after.verifiedAt == after.attemptedAt == Some(now) && after.error.None?
            && after.state == l.state && after.sha == l.sha && after.stat == l.stat && after.hasAsset == l.hasAsset
            && (Due(after, startedAt, t) ==> now < startedAt)
  {
  }

  class Verifier {
    var root: Root
    var locations: Locations

    constructor (root: Root, locations: Locations)
      ensures this.root == root && this.locations == locations
    {
      this.root, this.locations := root, locations;
    }

    method NextCandidate(cutoff: int, now: int) returns (candidate: Option<Candidate>)
      ensures candidate.None? <==> root.pending || Candidates(locations, cutoff, now) == {}
      ensures candidate.None? <==>
              root.pending || forall other | other in locations :: !Due(locations[other], cutoff, now)
      ensures candidate.Some? ==>
                var id := candidate.value.id;
                && id in locations && Due(locations[id], cutoff, now)
                && forall other | other in locations && other != id && Due(locations[other], cutoff, now) ::
                     TurnsBefore(id, locations[id], other, locations[other])
      ensures candidate.Some? ==>
                && IsNext(locations, cutoff, now, candidate.value.id)
                && candidate.value == CandidateOf(candidate.value.id, locations[candidate.value.id], root)
    {
      var ids := Candidates(locations, cutoff, now);
      NextIsFirstDue(locations, cutoff, now, 0);
      if root.pending || ids == {} {
        return None;
      }
      FirstExists(locations, ids);
      var id :| id in ids && forall other | other in ids && other != id :: Precedes(locations, id, other);
      NextIsFirstDue(locations, cutoff, now, id);
      candidate := Some(CandidateOf(id, locations[id], root));
    }

    method RecordAttempt(c: Candidate, now: int) returns (ok: bool)
      requires c.id in locations
      modifies `locations
      ensures ok == !Stale(old(locations)[c.id], root, c)
      ensures locations == old(locations)[c.id := Attempted(old(locations)[c.id], c, root, now)]
    {
      var l := locations[c.id];
      assert locations[c.id := l] == locations;
      ok := SameFile(l, c) && l.stat == c.stat && SameRoot(root, c);
      if ok {
        locations := locations[c.id := l.(attemptedAt := Some(now), error := None)];
      }
    }

    method RestoreAttempt(c: Candidate, attemptedAt: int)
      requires c.id in locations
      modifies `locations
      ensures locations == old(locations)[c.id := Restored(old(locations)[c.id], c, attemptedAt)]
    {
      var l := locations[c.id];
      assert locations[c.id := l] == locations;
      if SameFile(l, c) && l.attemptedAt == Some(attemptedAt) {
        locations := locations[c.id := l.(attemptedAt := c.attemptedAt, error := c.error)];
      }
    }

    method RecordFailure(c: Candidate, now: int, message: string)
      requires c.id in locations
      modifies `locations
      ensures locations ==
              if old(locations)[c.id].state == Active && old(locations)[c.id].sha == Some(c.sha)
              then old(locations)[c.id := FailedAt(old(locations)[c.id], now, message)] else old(locations)
    {
      if SameFile(locations[c.id], c) {
        locations := locations[c.id := FailedAt(locations[c.id], now, message)];
      }
    }

    method RecordSuccess(c: Candidate, now: int) returns (updated: bool)
      requires c.id in locations
      modifies `locations
      ensures updated == !Stale(old(locations)[c.id], root, c)
      ensures locations ==
              if updated
              then old(locations)[c.id := old(locations)[c.id].(verifiedAt := Some(now), attemptedAt := Some(now),
                  error := None)]
              else old(locations)
    {
      var l := locations[c.id];
      updated := SameFile(l, c) && l.stat == c.stat && SameRoot(root, c);
      if updated {
        locations := locations[c.id := l.(verifiedAt := Some(now), attemptedAt := Some(now), error := None)];
      }
    }

    method Resettle(c: Candidate, stat: int, now: int)
      requires c.id in locations
      modifies `locations
      ensures locations ==
              if old(locations)[c.id].state == Active && old(locations)[c.id].sha == Some(c.sha)
                 && root.generation == c.generation && !root.pending
              then old(locations)[c.id := Resettled(old(locations)[c.id], stat, now)] else old(locations)
    {
      if SameFile(locations[c.id], c) && SameRoot(root, c) {
        locations := locations[c.id := Resettled(locations[c.id], stat, now)];
      }
    }

    /** Check one picked file. The attempt is stamped before hashing, and taken back when the hash is interrupted. */
    method Check(c: Candidate, p: Probe, clock: Clock) returns (report: Option<Contribution>)
      requires c.id in locations && locations[c.id].sha.Some? && locations[c.id].state == Active && !root.pending
      requires c == CandidateOf(c.id, locations[c.id], root)
      modifies `locations
      ensures report == Examine(old(locations)[c.id], p, clock.stamp).1
      ensures locations == old(locations)[c.id := Examine(old(locations)[c.id], p, clock.stamp).0]
    {
      assert locations[c.id := locations[c.id]] == locations;
      match p {
        case RootDistrusted =>
          return Some(Untrusted);
        case Absent =>
          locations := locations[c.id := locations[c.id].(state := Missing)];
          return Some(File(Changed, 0));
        case OpenFailed(message) =>
          RecordFailure(c, clock.stamp, message);
          return Some(File(Failed, 0));
        case StatDiffers(stat) =>
          Resettle(c, stat, clock.stamp);
          return Some(File(Changed, 0));
        case _ =>
      }
      report := HashAndSettle(c, p, clock);
    }

    method HashAndSettle(c: Candidate, p: Probe, clock: Clock) returns (report: Option<Contribution>)
      requires p.Interrupted? || p.HashFailed? || p.SourceChanged? || p.PathFailed? || p.PathReplaced? || p.Hashed?
      requires c.id in locations && locations[c.id].sha.Some? && locations[c.id].state == Active && !root.pending
      requires c == CandidateOf(c.id, locations[c.id], root)
      modifies `locations
      ensures report == Examine(old(locations)[c.id], p, clock.stamp).1
      ensures locations == old(locations)[c.id := Examine(old(locations)[c.id], p, clock.stamp).0]
    {
      var ok := RecordAttempt(c, clock.attempt);
      assert ok;
      match p {
        case Interrupted =>
          RestoreUndoesAttempt(c.id, old(locations)[c.id], root, clock.attempt);
          RestoreAttempt(c, clock.attempt);
          report := None;
        case HashFailed(bytes, message) =>
          RecordFailure(c, clock.stamp, message);
          report := Some(File(Failed, bytes));
        case SourceChanged(bytes, stat) =>
          Resettle(c, stat, clock.stamp);
          report := Some(File(Changed, bytes));
        case PathFailed(bytes, message) =>
          RecordFailure(c, clock.stamp, message);
          report := Some(File(Failed, bytes));
        case PathReplaced(bytes, stat) =>
          Resettle(c, stat, clock.stamp);
          report := Some(File(Changed, bytes));
        case Hashed(bytes, sha) =>
          if sha != c.sha {
            Resettle(c, c.stat, clock.stamp);
            report := Some(File(Changed, bytes));
          } else {
            var updated := RecordSuccess(c, clock.stamp);
            report := Some(File(if updated then Verified else Unrecorded, bytes));
          }
      }
    }

    /** Check the next file of a window, if there is one. */
    method VerifyNext(cutoff: int, p: Probe, clock: Clock) returns (report: Option<Contribution>)
      modifies `locations
      ensures root.pending || Candidates(old(locations), cutoff, clock.pick) == {} ==>
                report == Some(NoFile) && locations == old(locations)
      ensures !root.pending && Candidates(old(locations), cutoff, clock.pick) != {} ==>
                exists id :: IsNext(old(locations), cutoff, clock.pick, id)
                  && report == Examine(old(locations)[id], p, clock.stamp).1
                  && locations == old(locations)[id := Examine(old(locations)[id], p, clock.stamp).0]
    {
      var candidate := NextCandidate(cutoff, clock.pick);
      if candidate.None? {
        return Some(NoFile);
      }
      ghost var id := candidate.value.id;
      assert IsNext(locations, cutoff, clock.pick, id);
      report := Check(candidate.value, p, clock);
    }

    /** A whole slice; `canceled` says whether the caller was canceled after the file was settled. */
    method RunSlice(p: Probe, clock: Clock, canceled: bool) returns (result: SliceResult)
      modifies this
      ensures CurrentWindow(old(root)).None? ==>
                result == SliceResult(None, true) && root == old(root) && locations == old(locations)
      ensures CurrentWindow(old(root)).Some? ==>
                var w := CurrentWindow(old(root)).value;
                && (clock.check >= w.deadlineAt ==>
                      result == SliceResult(None, true) && root == CompleteWindow(old(root), w, clock.check)
                          && locations == old(locations))
                && (clock.check < w.deadlineAt ==>
                    Outcome(old(root), old(locations), root, locations, w, p, clock, canceled, result))
    {
      var window := CurrentWindow(root);
      if window.None? {
        return SliceResult(None, true);
      }
      var w := window.value;
      if clock.check >= w.deadlineAt {
        root := CompleteWindow(root, w, clock.check);
        return SliceResult(None, true);
      }
      var report := VerifyNext(w.startedAt, p, clock);
      if report.None? {
        return SliceResult(None, false);
      }
      root := RecordProgress(root, w, TallyOf(report.value));
      if report == Some(Untrusted) {
        root := CompleteWindow(root, w, clock.done);
        return SliceResult(report, true);
      }
      if canceled {
        return SliceResult(report, false);
      }
      if clock.done < w.deadlineAt && report != Some(NoFile) {
        var next := NextCandidate(w.startedAt, clock.look);
        if next.Some? {
          return SliceResult(report, false);
        }
      }
      root := CompleteWindow(root, w, clock.done);
      result := SliceResult(report, true);
    }
  }

  /** What a slice of an open window does, said without its steps. */
  ghost predicate Outcome(
      r0: Root, ls0: Locations, r: Root, ls: Locations, w: Window, p: Probe, clock: Clock, canceled: bool,
      result: SliceResult)
  {
    var ids := if r0.pending then {} else Candidates(ls0, w.startedAt, clock.pick);
    // the locations: one candidate, the first in order, was examined
    && (ids == {} ==> result.contribution == Some(NoFile) && ls == ls0)
    && (ids != {} ==> exists id :: IsNext(ls0, w.startedAt, clock.pick, id)
                        && result.contribution == Examine(ls0[id], p, clock.stamp).1
                        && ls == ls0[id := Examine(ls0[id], p, clock.stamp).0])
    // the counters: exactly this slice's report was added
    && r.tally == (if result.contribution.Some? then Plus(r0.tally, TallyOf(result.contribution.value)) else r0.tally)
    // the window: it stays open, as it was, unless the slice closed it
    && r.(tally := r0.tally) == (if result.complete then CompleteWindow(r0, w, clock.done) else r0)
    && (result.contribution.None? ==> !result.complete)
    && (result.contribution == Some(Untrusted) ==> result.complete)
    && (result.contribution == Some(NoFile) && !canceled ==> result.complete)
    && (result.contribution.Some? && result.contribution.value.File? ==>
          var over := clock.done >= w.deadlineAt || r0.pending || Candidates(ls, w.startedAt, clock.look) == {};
          result.complete <==> !canceled && over)
  }

  /**
   A slice that reports a file takes it out of the files waiting in this window, and no slice
   puts one in. An interrupted slice leaves every location as it was.
   */
  lemma SliceShrinksTheWindow(r0: Root, ls0: Locations, r: Root, ls: Locations, w: Window, p: Probe, clock: Clock,
                              canceled: bool, result: SliceResult)
    requires Outcome(r0, ls0, r, ls, w, p, clock, canceled, result)
    requires w.startedAt <= clock.stamp
    ensures result.contribution.Some? && result.contribution.value.File? ==>
              Waiting(ls, w.startedAt) < Waiting(ls0, w.startedAt)
                  && |Waiting(ls, w.startedAt)| < |Waiting(ls0, w.startedAt)|
    ensures !(result.contribution.Some? && result.contribution.value.File?) ==> ls == ls0
  {
    var ids := if r0.pending then {} else Candidates(ls0, w.startedAt, clock.pick);
    if ids != {} {
      var id :| IsNext(ls0, w.startedAt, clock.pick, id)
             && result.contribution == Examine(ls0[id], p, clock.stamp).1
             && ls == ls0[id := Examine(ls0[id], p, clock.stamp).0];
      ExaminedFileWaitsNoMore(ls0[id], p, clock.stamp, w.startedAt);
      var before, after := Waiting(ls0, w.startedAt), Waiting(ls, w.startedAt);
      assert id in before;
      if result.contribution.Some? && result.contribution.value.File? {
        assert after == before - {id};
      } else {
        assert ls == ls0;
      }
    }
  }

  /** A slice that is not interrupted ends the window, or leaves it open with fewer files waiting. */
  lemma SliceEndsOrShrinks(
      r0: Root, ls0: Locations, r: Root, ls: Locations, w: Window, p: Probe, clock: Clock, result: SliceResult)
    requires CurrentWindow(r0) == Some(w) && !p.Interrupted? && w.startedAt <= clock.stamp
    requires Outcome(r0, ls0, r, ls, w, p, clock, false, result)
    ensures result.complete ==> CurrentWindow(r).None?
    ensures !result.complete ==>
              && CurrentWindow(r) == Some(w)
              && |Waiting(ls, w.startedAt)| < |Waiting(ls0, w.startedAt)|
  {
    SliceShrinksTheWindow(r0, ls0, r, ls, w, p, clock, false, result);
  }

  /**
   The scheduler runs slices while the window is open. Whatever the files show, a window with
   n files waiting is over after at most n + 1 slices.
   */
  method RunWindow(v: Verifier, w: Window, probes: nat -> Probe, clocks: nat -> Clock) returns (slices: nat)
    requires CurrentWindow(v.root) == Some(w)
    requires forall k :: !probes(k).Interrupted? && w.startedAt <= clocks(k).stamp
    modifies v
    ensures CurrentWindow(v.root).None?
    ensures 0 < slices <= |Waiting(old(v.locations), w.startedAt)| + 1
  {
    slices := 0;
    while CurrentWindow(v.root).Some?
      invariant CurrentWindow(v.root).None? ==> 0 < slices <= |Waiting(old(v.locations), w.startedAt)| + 1
      invariant CurrentWindow(v.root).Some? ==>
                  && CurrentWindow(v.root).value == w
                  && slices + |Waiting(v.locations, w.startedAt)| <= |Waiting(old(v.locations), w.startedAt)|
      decreases if CurrentWindow(v.root).Some? then 1 + |Waiting(v.locations, w.startedAt)| else 0
    {
      ghost var root, locations := v.root, v.locations;
      var result := v.RunSlice(probes(slices), clocks(slices), false);
      if clocks(slices).check < w.deadlineAt {
        SliceEndsOrShrinks(root, locations, v.root, v.locations, w, probes(slices), clocks(slices), result);
      }
      slices := slices + 1;
    }
  }

  /** The locations that still have a verified identity. */
  function Identified(locations: Locations): set<int> {
    set id | id in locations && locations[id].state == Active && locations[id].sha.Some?
  }

  /**
   The counters tell the truth about the tables: a slice counts a changed file exactly when
   one location lost its identity, and a verified one exactly when the next file's hash is
   the recorded one; nothing else loses or changes an identity.
   */
  lemma CountersAreTrue(r0: Root, ls0: Locations, r: Root, ls: Locations, w: Window, p: Probe, clock: Clock,
                        canceled: bool, result: SliceResult)
    requires Outcome(r0, ls0, r, ls, w, p, clock, canceled, result)
    ensures |Identified(ls)| == |Identified(ls0)| - (r.tally.changed - r0.tally.changed)
    ensures forall id | id in Identified(ls) ::
        id in Identified(ls0) && ls[id].sha == ls0[id].sha && ls[id].stat == ls0[id].stat
    ensures r.tally.verified > r0.tally.verified <==>
              exists id :: !r0.pending && IsNext(ls0, w.startedAt, clock.pick, id) && p.Hashed?
                  && ls0[id].sha == Some(p.sha)
  {
    var ids := if r0.pending then {} else Candidates(ls0, w.startedAt, clock.pick);
    if ids != {} {
      var id :| IsNext(ls0, w.startedAt, clock.pick, id)
             && result.contribution == Examine(ls0[id], p, clock.stamp).1
             && ls == ls0[id := Examine(ls0[id], p, clock.stamp).0];
      forall other | IsNext(ls0, w.startedAt, clock.pick, other) ensures other == id {
        NextIsUnique(ls0, w.startedAt, clock.pick, id, other);
      }
      IdentityOfExamined(ls0, id, p, clock.stamp);
    }
  }

  lemma NextIsUnique(locations: Locations, startedAt: int, now: int, a: int, b: int)
    requires IsNext(locations, startedAt, now, a) && IsNext(locations, startedAt, now, b)
    ensures a == b
  {
  }

  /** There is a file to check. */
  predicate HasDue(r: Root, locations: Locations, w: Window, now: int) {
    !r.pending && exists id | id in locations :: Due(locations[id], w.startedAt, now)
  }

  /** How many bytes were read. */
  function BytesRead(p: Probe): nat {
    match p
    case HashFailed(bytes, _) => bytes
    case SourceChanged(bytes, _) => bytes
    case PathFailed(bytes, _) => bytes
    case PathReplaced(bytes, _) => bytes
    case Hashed(bytes, _) => bytes
    case _ => 0
  }

  /**
   With a file to check, a slice counts one failure for a file that cannot be opened, read or
   found again and for a root that is not trusted, one processed file unless the root is not
   trusted or the check was interrupted, and the bytes it read; without one it counts nothing.
   */
  lemma CountersCountTheProbe(r0: Root, ls0: Locations, r: Root, ls: Locations, w: Window, p: Probe, clock: Clock,
                              canceled: bool, result: SliceResult)
    requires Outcome(r0, ls0, r, ls, w, p, clock, canceled, result)
    ensures HasDue(r0, ls0, w, clock.pick) ==>
              && r.tally.failed == r0.tally.failed
                   + One(p.OpenFailed? || p.HashFailed? || p.PathFailed? || p.RootDistrusted?)
              && r.tally.processed == r0.tally.processed + One(!p.RootDistrusted? && !p.Interrupted?)
              && r.tally.bytes == r0.tally.bytes + BytesRead(p)
              && r.tally.verified <= r0.tally.verified + One(p.Hashed?)
    ensures !HasDue(r0, ls0, w, clock.pick) ==> r.tally == r0.tally
  {
    NextIsFirstDue(ls0, w.startedAt, clock.pick, 0);
  }

  lemma IdentityOfExamined(ls: Locations, id: int, p: Probe, now: int)
    requires id in Identified(ls)
    ensures var (l, report) := Examine(ls[id], p, now);
            var lost := report.Some? && TallyOf(report.value).changed == 1;
            Identified(ls[id := l]) == if lost then Identified(ls) - {id} else Identified(ls)
  {
  }

  /** When a window is completed in time by a trusted slice, every file was settled in it or rests after a failure. */
  lemma CompletionLeavesNothing(r0: Root, ls0: Locations, r: Root, ls: Locations, w: Window, p: Probe, clock: Clock,
                                canceled: bool, result: SliceResult, id: int)
    requires Outcome(r0, ls0, r, ls, w, p, clock, canceled, result)
    requires result.complete && result.contribution != Some(Untrusted) && clock.done < w.deadlineAt && !r0.pending
    requires clock.pick <= clock.look
    requires id in ls && Waits(ls[id], w.startedAt)
    ensures ls[id].error.Some? && ls[id].attemptedAt.Some? && ls[id].attemptedAt.value > clock.pick - BACKOFF
  {
    if result.contribution == Some(NoFile) {
      assert ls == ls0 by {
        NoFileLeavesLocations(r0, ls0, r, ls, w, p, clock, canceled, result);
      }
      assert id !in Candidates(ls0, w.startedAt, clock.pick);
    } else {
      assert id !in Candidates(ls, w.startedAt, clock.look);
    }
  }

  lemma NoFileLeavesLocations(r0: Root, ls0: Locations, r: Root, ls: Locations, w: Window, p: Probe, clock: Clock,
                              canceled: bool, result: SliceResult)
    requires Outcome(r0, ls0, r, ls, w, p, clock, canceled, result)
    requires result.contribution == Some(NoFile)
    ensures ls == ls0 && (r0.pending || Candidates(ls0, w.startedAt, clock.pick) == {})
  {
  }
}
