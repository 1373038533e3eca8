/**
 The Immich mirror pager. It never asks for an offset: every request reads page one of a
 capture-time range whose upper bound shrinks, overlapping the last millisecond, while the
 server may change between requests in any way.

 Instants are integers (nanoseconds). A missing capture time is the zero timestamp.
 */
module ImmichPager {
  import opened Wrappers

  const MS: int := 1_000_000
  const FIRST_PAGE_SIZE: nat := 200
  const MAX_PAGE_SIZE: nat := 1000

  datatype Asset = Asset(id: int, capturedAt: Option<int>, updatedAt: Option<int>)

  datatype Response = Failed | Page(items: seq<Asset>, nextPage: Option<int>)

  datatype PagerError = RequestFailed | InvalidContinuation | MissingCaptureTime | Overfull

  datatype Pager = Pager(before: Option<int>, size: nat, seen: map<int, int>, done: bool, pendingErr: bool)

  const START := Pager(None, 0, map[], false, false)

  /** The update time the dedup filter compares; the zero time when there is none. */
  function Updated(a: Asset): int {
    if a.updatedAt.Some? then a.updatedAt.value else 0
  }

  function PageSize(p: Pager): nat {
    if p.size == 0 then FIRST_PAGE_SIZE else p.size
  }

  predicate AllCaptured(items: seq<Asset>) {
    forall i | 0 <= i < |items| :: items[i].capturedAt.Some?
  }

  /** The oldest capture time of a page. */
  function Oldest(items: seq<Asset>): (t: int)
    requires items != [] && AllCaptured(items)
    ensures forall i | 0 <= i < |items| :: t <= items[i].capturedAt.value
    ensures exists i | 0 <= i < |items| :: t == items[i].capturedAt.value
  {
    var last := items[|items| - 1].capturedAt.value;
    if |items| == 1 then last
    else
      var t := Oldest(items[..|items| - 1]);
      assert forall i | 0 <= i < |items| - 1 :: items[..|items| - 1][i] == items[i];
      if last < t then last else t
  }

  /** The end of the oldest asset's millisecond. */
  function Boundary(oldest: int): int {
    oldest / MS * MS + MS
  }

  predicate Dropped(a: Asset, seen: map<int, int>) {
    a.id in seen && Updated(a) <= seen[a.id]
  }

  /** The page without the assets the previous page already gave in this version. */
  function Fresh(items: seq<Asset>, seen: map<int, int>): (kept: seq<Asset>)
    ensures |kept| <= |items|
  {
    if items == [] then []
    else
      var last := items[|items| - 1];
      Fresh(items[..|items| - 1], seen) + if Dropped(last, seen) then [] else [last]
  }

  /** The versions of one page, by ID; a later occurrence overwrites an earlier one. */
  function SeenOf(items: seq<Asset>): map<int, int> {
    if items == [] then map[]
    else
      var last := items[|items| - 1];
      SeenOf(items[..|items| - 1])[last.id := Updated(last)]
  }

  /** How a continued page moves the range: shrink it, grow the page, or give up later. */
  function Continue(p: Pager, oldest: int): Pager {
    var boundary := Boundary(oldest);
    if p.before.Some? && boundary >= p.before.value then
      if PageSize(p) < MAX_PAGE_SIZE then p.(size := MAX_PAGE_SIZE) else p.(pendingErr := true)
    else p.(before := Some(boundary))
  }

  /** One call of `next`: the new pager and the assets it returns, or an error. */
  function Next(p: Pager, resp: Response): (Pager, Result<seq<Asset>, PagerError>) {
    if p.pendingErr then (p, Err(Overfull))
    else
      var q := p.(size := PageSize(p));
      match resp
      case Failed => (q, Err(RequestFailed))
      case Page(items, nextPage) =>
        if nextPage.None? then
          (q.(done := true, seen := SeenOf(items)), Ok(Fresh(items, p.seen)))
        else if nextPage.value != 2 || items == [] then (q, Err(InvalidContinuation))
        else if !AllCaptured(items) then (q, Err(MissingCaptureTime))
        else (Continue(q, Oldest(items)).(seen := SeenOf(items)), Ok(Fresh(items, p.seen)))
  }

  // ------------------------------------------------------------------ imperative form

  lemma NextFresh(items: seq<Asset>, i: nat, previous: map<int, int>)
    requires i < |items|
    ensures SeenOf(items[..i + 1]) == SeenOf(items[..i])[items[i].id := Updated(items[i])]
    ensures Fresh(items[..i + 1], previous)
         == if Dropped(items[i], previous) then Fresh(items[..i], previous)
            else Fresh(items[..i], previous) + [items[i]]
  {
    assert items[..i + 1][..i] == items[..i];
  }

  /**
   Compact the page in place: kept assets move to the front, and `seen` collects every
   asset's version.
   */
  method FilterInPlace(page: array<Asset>, previous: map<int, int>) returns (kept: nat, seen: map<int, int>)
    modifies page
    ensures kept <= page.Length
    ensures page[..kept] == Fresh(old(page[..]), previous)
    ensures seen == SeenOf(old(page[..]))
  {
    ghost var items := page[..];
    kept, seen := 0, map[];
    var i := 0;
    while i < page.Length
      invariant 0 <= kept <= i <= page.Length
      invariant forall k | i <= k < page.Length :: page[k] == items[k]
      invariant page[..kept] == Fresh(items[..i], previous)
      invariant seen == SeenOf(items[..i])
    {
      var asset := page[i];
      NextFresh(items, i, previous);
      seen := seen[asset.id := Updated(asset)];
      if !Dropped(asset, previous) {
        ghost var front := page[..kept];
        page[kept] := asset;
        kept := kept + 1;
        assert page[..kept] == front + [asset];
      }
      i := i + 1;
    }
    assert items[..i] == items;
  }

  /** The minimum capture time, scanned asset by asset. */
  method FindOldest(page: array<Asset>) returns (oldest: int)
    requires page.Length > 0 && AllCaptured(page[..])
    ensures oldest == Oldest(page[..])
  {
    oldest := page[0].capturedAt.value;
    var i := 1;
    while i < page.Length
      invariant 1 <= i <= page.Length
      invariant oldest == Oldest(page[..i])
    {
      assert page[..i + 1][..i] == page[..i];
      if page[i].capturedAt.value < oldest {
        oldest := page[i].capturedAt.value;
      }
      i := i + 1;
    }
    assert page[..i] == page[..];
  }

  class ImmichMirrorPager {
    var before: Option<int>
    var size: nat
    var seen: map<int, int>
    var done: bool
    var pendingErr: bool

    function State(): Pager
      reads this
    {
      Pager(before, size, seen, done, pendingErr)
    }

    constructor ()
      ensures State() == START && PageSize(State()) == 200
    {
      before, size, seen, done, pendingErr := None, 0, map[], false, false;
    }

    /** The part of `next` after the response arrived; the page is filtered in place. */
    method HandlePage(page: array<Asset>, nextPage: Option<int>) returns (r: Result<seq<Asset>, PagerError>)
      requires !pendingErr
      modifies this, page
      ensures (State(), r) == Next(old(State()), Page(old(page[..]), nextPage))
    {
      if size == 0 {
        size := FIRST_PAGE_SIZE;
      }
      if nextPage.None? {
        done := true;
      } else {
        if nextPage.value != 2 || page.Length == 0 {
          return Err(InvalidContinuation);
        }
        if !AllCaptured(page[..]) {
          return Err(MissingCaptureTime);
        }
        var oldest := FindOldest(page);
        var boundary := Boundary(oldest);
        if before.Some? && boundary >= before.value {
          if size < MAX_PAGE_SIZE {
            size := MAX_PAGE_SIZE;
          } else {
            pendingErr := true;
          }
        } else {
          before := Some(boundary);
        }
      }
      var kept, versions := FilterInPlace(page, seen);
      seen := versions;
      r := Ok(page[..kept]);
    }

    /** One call of `next`; the ways it fails. */
    method Step(resp: Response) returns (r: Result<seq<Asset>, PagerError>)
      modifies this
      ensures (State(), r) == Next(old(State()), resp)
      ensures r == Err(Overfull) <==> old(pendingErr)
      ensures r == Err(RequestFailed) <==> !old(pendingErr) && resp.Failed?
      ensures r == Err(InvalidContinuation) <==>
              !old(pendingErr) && resp.Page? && resp.nextPage.Some? && (resp.nextPage != Some(2) || resp.items == [])
      ensures r == Err(MissingCaptureTime) <==>
              && !old(pendingErr) && resp.Page? && resp.nextPage == Some(2) && resp.items != []
              && exists a :: a in resp.items && a.capturedAt.None?
    {
      if pendingErr {
        return Err(Overfull);
      }
      if resp.Failed? {
        size := if size == 0 then FIRST_PAGE_SIZE else size;
        return Err(RequestFailed);
      }
      var page := new Asset[|resp.items|](i requires 0 <= i < |resp.items| => resp.items[i]);
      assert page[..] == resp.items;
      r := HandlePage(page, resp.nextPage);
    }
  }

  // --------------------------------------------------------------- what a server promises

  predicate InRange(t: int, before: Option<int>) {
    before.Some? ==> t <= before.value
  }

  /** The matching assets a request with this inclusive upper bound may return. */
  predicate Requested(a: Asset, before: Option<int>) {
    a.capturedAt.Some? && InRange(a.capturedAt.value, before)
  }

  ghost predicate Distinct(items: seq<Asset>) {
    forall i, j | 0 <= i < j < |items| :: items[i] != items[j]
  }

  /**
   The response honours the request over the assets that match at that moment: it holds
   requested assets only, at most a page of them, and newest first, so an asset left out
   is no newer than any asset returned and the response is continued.
   */
  ghost predicate Honours(content: set<Asset>, p: Pager, resp: Response) {
    resp.Page? ==>
      && |resp.items| <= PageSize(p)
      && (forall x | x in resp.items :: x in content && Requested(x, p.before))
      && (forall a | a in content && Requested(a, p.before) && a !in resp.items ::
            resp.nextPage.Some? && forall x | x in resp.items :: a.capturedAt.value <= x.capturedAt.value)
  }

  /** Besides, a page is continued only when it is full and something is left, and repeats nothing. */
  ghost predicate FillsPages(content: set<Asset>, p: Pager, resp: Response) {
    resp.Page? ==>
      && Distinct(resp.items)
      && (resp.nextPage.Some? ==> |resp.items| == PageSize(p))
      && (resp.nextPage.Some? ==> exists a :: a in content && Requested(a, p.before) && a !in resp.items)
  }

  // ------------------------------------------------------------------------- whole runs

  /** One request: what matched on the server at that moment, and its answer. */
  datatype Exchange = Exchange(content: set<Asset>, resp: Response)

  datatype Progress = Progress(pager: Pager, yielded: seq<Asset>, error: Option<PagerError>)

  predicate Running(r: Progress) {
    !r.pager.done && r.error.None?
  }

  function Advance(r: Progress, resp: Response): Progress {
    var (p, result) := Next(r.pager, resp);
    match result
    case Ok(items) => Progress(p, r.yielded + items, None)
    case Err(e) => Progress(p, r.yielded, Some(e))
  }

  /** The caller's loop: call `next` until it is done or fails. */
  function Drive(run: seq<Exchange>): Progress {
    if run == [] then Progress(START, [], None)
    else
      var r := Drive(run[..|run| - 1]);
      if Running(r) then Advance(r, run[|run| - 1].resp) else r
  }

  ghost predicate Honest(run: seq<Exchange>) {
    forall k | 0 <= k < |run| :: Honours(run[k].content, Drive(run[..k]).pager, run[k].resp)
  }

  lemma HonestPrefix(run: seq<Exchange>)
    requires Honest(run) && run != []
    ensures Honest(run[..|run| - 1])
    ensures Honours(run[|run| - 1].content, Drive(run[..|run| - 1]).pager, run[|run| - 1].resp)
  {
    var front := run[..|run| - 1];
    forall k | 0 <= k < |front| ensures Honours(front[k].content, Drive(front[..k]).pager, front[k].resp) {
      assert front[..k] == run[..k];
    }
  }

  ghost predicate Yielded(yielded: seq<Asset>, id: int) {
    exists y :: y in yielded && y.id == id
  }

  /** Some yielded version of the asset is at least this recent. */
  ghost predicate YieldedSince(yielded: seq<Asset>, id: int, updated: int) {
    exists y :: y in yielded && y.id == id && Updated(y) >= updated
  }

  ghost predicate SeenWasYielded(seen: map<int, int>, yielded: seq<Asset>) {
    forall id | id in seen :: YieldedSince(yielded, id, seen[id])
  }

  lemma {:induction false} FreshOrSeen(items: seq<Asset>, seen: map<int, int>)
    ensures forall x | x in items :: x in Fresh(items, seen) || Dropped(x, seen)
    ensures forall id | id in SeenOf(items) :: exists x :: x in items && x.id == id && Updated(x) == SeenOf(items)[id]
    ensures forall x | x in items :: x.id in SeenOf(items)
  {
    if items != [] {
      var front, last := items[..|items| - 1], items[|items| - 1];
      FreshOrSeen(front, seen);
      assert items == front + [last];
      forall id | id in SeenOf(items) ensures exists x :: x in items && x.id == id && Updated(x) == SeenOf(items)[id] {
        if id == last.id {
          assert last in items;
        } else {
          assert id in SeenOf(front);
          var x :| x in front && x.id == id && Updated(x) == SeenOf(front)[id];
          assert x in items;
        }
      }
    }
  }

  /** Every version a page shows has been yielded, in this version or a newer one. */
  lemma PageIsYielded(yielded: seq<Asset>, items: seq<Asset>, seen: map<int, int>)
    requires SeenWasYielded(seen, yielded)
    ensures forall x | x in items :: YieldedSince(yielded + Fresh(items, seen), x.id, Updated(x))
    ensures SeenWasYielded(SeenOf(items), yielded + Fresh(items, seen))
  {
    var all := yielded + Fresh(items, seen);
    FreshOrSeen(items, seen);
    forall x | x in items ensures YieldedSince(all, x.id, Updated(x)) {
      if x in Fresh(items, seen) {
        assert x in all;
      } else {
        var y :| y in yielded && y.id == x.id && Updated(y) >= seen[x.id];
        assert y in all;
      }
    }
    forall id | id in SeenOf(items) ensures YieldedSince(all, id, SeenOf(items)[id]) {
      var x :| x in items && x.id == id && Updated(x) == SeenOf(items)[id];
    }
  }

  lemma {:induction false} SeenStaysYielded(run: seq<Exchange>)
    ensures SeenWasYielded(Drive(run).pager.seen, Drive(run).yielded)
  {
    if run != [] {
      var r, resp := Drive(run[..|run| - 1]), run[|run| - 1].resp;
      SeenStaysYielded(run[..|run| - 1]);
      if Running(r) && resp.Page? {
        PageIsYielded(r.yielded, resp.items, r.pager.seen);
      }
    }
  }

  /**
   The dedup filter never drops a version newer than one already yielded: whatever the
   server sends, after each accepted page every asset on it has been yielded in a version
   at least as recent.
   */
  lemma NewerVersionsAreYielded(run: seq<Exchange>, resp: Response, x: Asset)
    requires Running(Drive(run)) && resp.Page? && x in resp.items
    requires Advance(Drive(run), resp).error.None?
    ensures YieldedSince(Advance(Drive(run), resp).yielded, x.id, Updated(x))
  {
    SeenStaysYielded(run);
    PageIsYielded(Drive(run).yielded, resp.items, Drive(run).pager.seen);
  }

  ghost predicate DistinctIds(items: seq<Asset>) {
    forall i, j | 0 <= i < j < |items| :: items[i].id != items[j].id
  }

  lemma {:induction false} SeenIsShown(items: seq<Asset>, y: Asset)
    requires DistinctIds(items) && y in items
    ensures y.id in SeenOf(items) && SeenOf(items)[y.id] == Updated(y)
  {
    var front, last := items[..|items| - 1], items[|items| - 1];
    assert items == front + [last];
    if y != last { SeenIsShown(front, y); }
  }

  lemma {:induction false} FreshIsNotDropped(items: seq<Asset>, seen: map<int, int>)
    ensures forall x :: x in Fresh(items, seen) <==> x in items && !Dropped(x, seen)
  {
    if items != [] {
      FreshIsNotDropped(items[..|items| - 1], seen);
      assert items == items[..|items| - 1] + [items[|items| - 1]];
    }
  }

  /** What the latest accepted page added. */
  function Added(r: Progress, resp: Response): seq<Asset> {
    var after := Advance(r, resp).yielded;
    if |r.yielded| <= |after| then after[|r.yielded|..] else []
  }

  /**
   An asset of the page before that shows up again is yielded again exactly when it was
   updated since, and an asset the page before did not show is always yielded.
   */
  lemma {:induction false} RepeatIsYieldedIffNewer(run: seq<Exchange>, resp: Response, x: Asset)
    requires run != [] && Running(Drive(run[..|run| - 1])) && Running(Drive(run))
    requires run[|run| - 1].resp.Page? && DistinctIds(run[|run| - 1].resp.items)
    requires resp.Page? && x in resp.items && Advance(Drive(run), resp).error.None?
    ensures (forall y | y in run[|run| - 1].resp.items :: y.id != x.id) ==> x in Added(Drive(run), resp)
    ensures forall y | y in run[|run| - 1].resp.items && y.id == x.id && y.updatedAt.Some? && x.updatedAt.Some? ::
              x in Added(Drive(run), resp) <==> x.updatedAt.value > y.updatedAt.value
    ensures forall y | y in run[|run| - 1].resp.items && y.id == x.id && y.updatedAt == x.updatedAt ::
              x !in Added(Drive(run), resp)
  {
    var items, seen := run[|run| - 1].resp.items, Drive(run).pager.seen;
    assert seen == SeenOf(items);
    FreshIsNotDropped(resp.items, seen);
    FreshOrSeen(items, map[]);
    assert Added(Drive(run), resp) == Fresh(resp.items, seen);
    forall y | y in items && y.id == x.id ensures seen[x.id] == Updated(y) && x.id in seen {
      SeenIsShown(items, y);
    }
  }

  // ----------------------------------------------------------------------- completeness

  /** The asset keeps matching, with one capture time, at every request of the run. */
  ghost predicate Stays(run: seq<Exchange>, id: int, capturedAt: int) {
    forall k | 0 <= k < |run| :: exists a :: a in run[k].content && a.id == id && a.capturedAt == Some(capturedAt)
  }

  lemma {:induction false} NothingIsSkipped(run: seq<Exchange>, id: int, capturedAt: int)
    requires Honest(run) && Stays(run, id, capturedAt)
    ensures var r := Drive(run);
            Yielded(r.yielded, id) || (!r.pager.done && InRange(capturedAt, r.pager.before))
  {
    if run != [] {
      var front, last := run[..|run| - 1], run[|run| - 1];
      var r := Drive(front);
      HonestPrefix(run);
      forall k | 0 <= k < |front|
        ensures exists a :: a in front[k].content && a.id == id && a.capturedAt == Some(capturedAt)
      {
        assert front[k] == run[k];
      }
      NothingIsSkipped(front, id, capturedAt);
      if Running(r) {
        assert last == run[|run| - 1];
        NextSkipsNothing(front, last, id, capturedAt);
      }
    }
  }

  /** One more request keeps an asset that still matches yielded or in range. */
  lemma NextSkipsNothing(front: seq<Exchange>, last: Exchange, id: int, capturedAt: int)
    requires var r := Drive(front); Running(r) && Honours(last.content, r.pager, last.resp)
    requires exists a :: a in last.content && a.id == id && a.capturedAt == Some(capturedAt)
    requires Yielded(Drive(front).yielded, id) || InRange(capturedAt, Drive(front).pager.before)
    ensures var next := Advance(Drive(front), last.resp);
            Yielded(next.yielded, id) || (!next.pager.done && InRange(capturedAt, next.pager.before))
  {
    var r := Drive(front);
    var next := Advance(r, last.resp);
    if Yielded(r.yielded, id) {
      var y :| y in r.yielded && y.id == id;
      assert y in next.yielded;
    } else if next.error.None? {
      var a :| a in last.content && a.id == id && a.capturedAt == Some(capturedAt);
      if a in last.resp.items {
        NewerVersionsAreYielded(front, last.resp, a);
        var y :| y in next.yielded && y.id == id;
      } else {
        assert capturedAt <= Oldest(last.resp.items) < Boundary(Oldest(last.resp.items));
      }
    }
  }

  /**
   The pager loses nothing: when a run completes, every asset that kept matching with one
   capture time was yielded, whatever else changed on the server between requests.
   */
  lemma CompletedRunLosesNothing(run: seq<Exchange>, id: int, capturedAt: int)
    requires Honest(run) && Stays(run, id, capturedAt)
    requires Drive(run).pager.done
    ensures Yielded(Drive(run).yielded, id)
  {
    NothingIsSkipped(run, id, capturedAt);
  }

  // ----------------------------------------------------------------------- termination

  /** Range bounds are whole milliseconds, and the page size is one of two. */
  predicate WellFormed(p: Pager) {
    (p.before.Some? ==> p.before.value % MS == 0) && p.size in {0, FIRST_PAGE_SIZE, MAX_PAGE_SIZE}
  }

  lemma NextStaysWellFormed(p: Pager, resp: Response)
    requires WellFormed(p)
    ensures WellFormed(Next(p, resp).0)
  {
  }

  /** Milliseconds left above a capture-time floor. */
  function Room(before: Option<int>, floor: int): nat {
    if before.Some? && before.value / MS > floor / MS then before.value / MS - floor / MS else 0
  }

  predicate AboveFloor(resp: Response, floor: int) {
    resp.Page? ==> forall x | x in resp.items :: x.capturedAt.Some? ==> floor <= x.capturedAt.value
  }

  /** A continued page shrinks the range by a millisecond or more, or grows the page, or schedules the error. */
  lemma ContinueMakesProgress(p: Pager, resp: Response, floor: int)
    requires WellFormed(p) && !p.done && AboveFloor(resp, floor)
    requires Next(p, resp).1.Ok? && !Next(p, resp).0.done
    ensures var q := Next(p, resp).0;
            || (p.before.None? && q.before.Some?)
            || (p.before.Some? && q.before.Some? && Room(q.before, floor) < Room(p.before, floor))
            || (q.before == p.before && PageSize(p) < PageSize(q))
            || (q.before == p.before && PageSize(q) == PageSize(p) && q.pendingErr && !p.pendingErr)
  {
    var oldest := Oldest(resp.items);
    var i :| 0 <= i < |resp.items| && oldest == resp.items[i].capturedAt.value;
    assert resp.items[i] in resp.items;
    assert floor <= oldest;
    BoundaryArithmetic(oldest, floor, p.before);
  }

  lemma BoundaryArithmetic(oldest: int, floor: int, before: Option<int>)
    requires floor <= oldest
    requires before.Some? ==> before.value % MS == 0
    ensures Boundary(oldest) % MS == 0
    ensures Boundary(oldest) / MS == oldest / MS + 1 > floor / MS
    ensures before.Some? && Boundary(oldest) < before.value ==> Boundary(oldest) / MS < before.value / MS
  {
  }

  /** The k-th exchange is the server's answer to the request the pager made then. */
  predicate Answered(
      run: seq<Exchange>, k: nat, respond: (nat, Option<int>, nat) -> Response, contents: nat -> set<Asset>)
    requires k < |run|
  {
    var p := Drive(run[..k]).pager;
    run[k] == Exchange(contents(k), respond(k, p.before, PageSize(p)))
  }

  /** Fetch everything from a server that may answer each request differently, within a floor. */
  method FetchAll(respond: (nat, Option<int>, nat) -> Response, ghost contents: nat -> set<Asset>, ghost floor: int)
    returns (yielded: seq<Asset>, error: Option<PagerError>, ghost run: seq<Exchange>)
    requires forall k: nat, p: Pager :: AboveFloor(respond(k, p.before, PageSize(p)), floor)
    ensures Progress(Drive(run).pager, yielded, error) == Drive(run) && !Running(Drive(run))
    ensures forall k | 0 <= k < |run| :: Answered(run, k, respond, contents)
  {
    var pager := new ImmichMirrorPager();
    yielded, error, run := [], None, [];
    var k: nat := 0;
    while !pager.done && error.None?
      invariant fresh(pager)
      invariant WellFormed(pager.State()) && k == |run|
      invariant Progress(pager.State(), yielded, error) == Drive(run)
      invariant forall k | 0 <= k < |run| :: Answered(run, k, respond, contents)
      decreases !pager.done && error.None?, if pager.before.None? then 1 else 0, Room(pager.before, floor),
                MAX_PAGE_SIZE - PageSize(pager.State()), !pager.pendingErr
    {
      var resp := respond(k, pager.before, PageSize(pager.State()));
      ghost var p := pager.State();
      NextStaysWellFormed(p, resp);
      if Next(p, resp).1.Ok? && !Next(p, resp).0.done {
        ContinueMakesProgress(p, resp, floor);
      }
      var result := pager.Step(resp);
      ghost var longer := run + [Exchange(contents(k), resp)];
      assert longer[..|longer| - 1] == run;
      forall k | 0 <= k < |longer| ensures Answered(longer, k, respond, contents) {
        if k < |run| { assert longer[..k] == run[..k] && Answered(run, k, respond, contents); }
      }
      match result {
        case Ok(items) => yielded := yielded + items;
        case Err(e) => error := Some(e);
      }
      run := longer;
      k := k + 1;
    }
  }

  // --------------------------------------------------- when the sync is incomplete

  function ElementsOf(items: seq<Asset>): set<Asset> {
    set x | x in items
  }

  lemma {:induction false} DistinctSize(items: seq<Asset>)
    ensures |ElementsOf(items)| <= |items|
    ensures Distinct(items) ==> |ElementsOf(items)| == |items|
  {
    if items != [] {
      var front, last := items[..|items| - 1], items[|items| - 1];
      DistinctSize(front);
      assert items == front + [last];
      assert ElementsOf(items) == ElementsOf(front) + {last};
      if Distinct(items) { assert last !in front; }
    }
  }

  /**
   The incompleteness error is set only by a full page of 1000 distinct matching assets in
   one closed millisecond below the bound, with more requested assets left.
   */
  lemma OverfullIsDense(p: Pager, content: set<Asset>, resp: Response)
    requires WellFormed(p) && !p.pendingErr && Honours(content, p, resp) && FillsPages(content, p, resp)
    requires Next(p, resp).0.pendingErr
    ensures p.before.Some?
    ensures var page := ElementsOf(resp.items);
            && |page| == 1000 && page <= content
            && (forall x | x in page ::
                x.capturedAt.Some? && p.before.value - MS <= x.capturedAt.value <= p.before.value)
            && (exists a :: a in content && a !in page && Requested(a, p.before))
  {
    DistinctSize(resp.items);
    var oldest := Oldest(resp.items);
    assert oldest / MS * MS + MS >= p.before.value;
    forall x | x in resp.items ensures p.before.value - MS <= x.capturedAt.value {
      var i :| 0 <= i < |resp.items| && resp.items[i] == x;
      assert oldest <= x.capturedAt.value;
    }
    var a :| a in content && Requested(a, p.before) && a !in resp.items;
    assert a !in ElementsOf(resp.items);
  }

  // --------------------------------------------------------- when the sync completes

  function InClosedMillisecond(content: set<Asset>, start: int): set<Asset> {
    set a | a in content && a.capturedAt.Some? && start <= a.capturedAt.value <= start + MS
  }

  /** Every asset is captured, and no closed millisecond holds a page of the largest size. */
  ghost predicate Sparse(content: set<Asset>) {
    && (forall a | a in content :: a.capturedAt.Some?)
    && forall start :: |InClosedMillisecond(content, start)| < MAX_PAGE_SIZE
  }

  /** The server answers with a page that honours the request, and asks for page 2 when something is left. */
  ghost predicate Cooperates(content: set<Asset>, p: Pager, resp: Response) {
    && resp.Page? && Honours(content, p, resp) && FillsPages(content, p, resp)
    && (resp.nextPage.Some? ==> resp.nextPage.value == 2)
  }

  ghost predicate Cooperative(run: seq<Exchange>) {
    forall k | 0 <= k < |run| ::
      Sparse(run[k].content) && Cooperates(run[k].content, Drive(run[..k]).pager, run[k].resp)
  }

  /** One request over sparse assets succeeds and schedules no error. */
  lemma SparseStepSucceeds(p: Pager, content: set<Asset>, resp: Response)
    requires WellFormed(p) && !p.pendingErr && Sparse(content) && Cooperates(content, p, resp)
    ensures Next(p, resp).1.Ok? && !Next(p, resp).0.pendingErr
  {
    if resp.nextPage.Some? {
      assert AllCaptured(resp.items) by {
        forall i | 0 <= i < |resp.items| ensures resp.items[i].capturedAt.Some? {
          assert resp.items[i] in resp.items;
        }
      }
      if Next(p, resp).0.pendingErr {
        OverfullIsDense(p, content, resp);
        CardinalityMonotone(ElementsOf(resp.items), InClosedMillisecond(content, p.before.value - MS));
        assert false;
      }
    }
  }

  /** A sync never fails while the server cooperates and its assets are sparse at every request. */
  lemma {:induction false} SparseRunsSucceed(run: seq<Exchange>)
    requires Cooperative(run)
    ensures Drive(run).error.None? && !Drive(run).pager.pendingErr && WellFormed(Drive(run).pager) && Honest(run)
  {
    forall k | 0 <= k < |run| ensures Honours(run[k].content, Drive(run[..k]).pager, run[k].resp) {
      assert Cooperates(run[k].content, Drive(run[..k]).pager, run[k].resp);
    }
    if run != [] {
      var front, last := run[..|run| - 1], run[|run| - 1];
      forall k | 0 <= k < |front|
        ensures Sparse(front[k].content) && Cooperates(front[k].content, Drive(front[..k]).pager, front[k].resp)
      {
        assert front[..k] == run[..k] && front[k] == run[k];
      }
      SparseRunsSucceed(front);
      if Running(Drive(front)) {
        SparseStepSucceeds(Drive(front).pager, last.content, last.resp);
        NextStaysWellFormed(Drive(front).pager, last.resp);
      }
    }
  }

  lemma {:induction false} YieldedWasThere(run: seq<Exchange>, content: set<Asset>)
    requires Honest(run) && forall k | 0 <= k < |run| :: run[k].content == content
    ensures forall y | y in Drive(run).yielded :: y in content
  {
    if run != [] {
      var front, last := run[..|run| - 1], run[|run| - 1];
      HonestPrefix(run);
      assert forall k | 0 <= k < |front| :: front[k] == run[k];
      YieldedWasThere(front, content);
      if Running(Drive(front)) {
        AddsWhatIsThere(Drive(front), content, last.resp);
      }
    }
  }

  lemma AddsWhatIsThere(r: Progress, content: set<Asset>, resp: Response)
    requires Honours(content, r.pager, resp) && forall y | y in r.yielded :: y in content
    ensures forall y | y in Advance(r, resp).yielded :: y in content
  {
    if resp.Page? {
      FreshIsNotDropped(resp.items, r.pager.seen);
      forall y | y in Fresh(resp.items, r.pager.seen) ensures y in content {
      }
    }
  }

  /** Over unchanged sparse assets a cooperating server is read to its end: everything is yielded, and nothing else. */
  method MirrorAll(respond: (nat, Option<int>, nat) -> Response, ghost content: set<Asset>, ghost floor: int)
    returns (yielded: seq<Asset>, error: Option<PagerError>)
    requires Sparse(content)
    requires forall a, b | a in content && b in content && a.id == b.id :: a == b
    requires forall a | a in content :: floor <= a.capturedAt.value
    requires forall k: nat, p: Pager :: Cooperates(content, p, respond(k, p.before, PageSize(p)))
    ensures error.None?
    ensures forall a :: a in yielded <==> a in content
  {
    forall k: nat, p: Pager ensures AboveFloor(respond(k, p.before, PageSize(p)), floor) {
      assert Cooperates(content, p, respond(k, p.before, PageSize(p)));
    }
    ghost var run;
    ghost var contents: nat -> set<Asset> := k => content;
    yielded, error, run := FetchAll(respond, contents, floor);
    forall k | 0 <= k < |run|
      ensures run[k].content == content && Cooperates(run[k].content, Drive(run[..k]).pager, run[k].resp)
    {
      assert Answered(run, k, respond, contents);
    }
    SparseRunsSucceed(run);
    YieldedWasThere(run, content);
    forall a | a in content ensures a in yielded {
      CompletedRunLosesNothing(run, a.id, a.capturedAt.value);
      var y :| y in yielded && y.id == a.id;
      assert y in content;
    }
  }

  /** Assets captured within one millisecond. */
  predicate InMillisecond(dense: set<Asset>, start: int) {
    forall a | a in dense :: a.capturedAt.Some? && start <= a.capturedAt.value < start + MS
  }

  ghost predicate KeepsRange(p: Pager, start: int) {
    WellFormed(p) && !p.done && (p.before.Some? ==> p.before.value >= start + MS)
  }

  lemma DenseStepKeepsRange(p: Pager, content: set<Asset>, resp: Response, dense: set<Asset>, start: int)
    requires KeepsRange(p, start) && Honours(content, p, resp) && dense <= content
    requires InMillisecond(dense, start) && start % MS == 0 && |dense| > MAX_PAGE_SIZE
    ensures KeepsRange(Next(p, resp).0, start)
  {
    NextStaysWellFormed(p, resp);
    if resp.Page? {
      var a := SomeLeftOut(dense, resp.items);
      assert Requested(a, p.before);
      if resp.items != [] && AllCaptured(resp.items) {
        var i :| 0 <= i < |resp.items| && Oldest(resp.items) == resp.items[i].capturedAt.value;
        assert resp.items[i] in resp.items;
        assert start <= a.capturedAt.value <= Oldest(resp.items);
        BoundaryOfMillisecond(Oldest(resp.items), start);
      }
    }
  }

  lemma BoundaryOfMillisecond(oldest: int, start: int)
    requires start % MS == 0 && start <= oldest
    ensures Boundary(oldest) >= start + MS
  {
  }

  lemma {:induction false} DenseKeepsRange(run: seq<Exchange>, dense: set<Asset>, start: int)
    requires Honest(run) && forall k | 0 <= k < |run| :: dense <= run[k].content
    requires InMillisecond(dense, start) && start % MS == 0 && |dense| > MAX_PAGE_SIZE
    ensures KeepsRange(Drive(run).pager, start)
  {
    if run != [] {
      var front, last := run[..|run| - 1], run[|run| - 1];
      HonestPrefix(run);
      assert forall k | 0 <= k < |front| :: front[k] == run[k];
      DenseKeepsRange(front, dense, start);
      if Running(Drive(front)) {
        DenseStepKeepsRange(Drive(front).pager, last.content, last.resp, dense, start);
      }
    }
  }

  lemma SomeLeftOut(dense: set<Asset>, items: seq<Asset>) returns (a: Asset)
    requires |dense| > MAX_PAGE_SIZE >= |items|
    ensures a in dense && a !in items
  {
    DistinctSize(items);
    if dense <= ElementsOf(items) {
      CardinalityMonotone(dense, ElementsOf(items));
      assert false;
    }
    a :| a in dense && a !in ElementsOf(items);
  }

  lemma CardinalityMonotone(a: set<Asset>, b: set<Asset>)
    requires a <= b
    ensures |a| <= |b|
  {
    assert b == a + (b - a);
  }

  /**
   Conversely, while more than 1000 matching assets share one millisecond the run never
   completes: it can only end with an error, so the checkpoint cannot move past them.
   */
  lemma DenseMillisecondNeverCompletes(run: seq<Exchange>, dense: set<Asset>, start: int)
    requires Honest(run) && forall k | 0 <= k < |run| :: dense <= run[k].content
    requires InMillisecond(dense, start) && start % MS == 0 && |dense| > MAX_PAGE_SIZE
    ensures !Drive(run).pager.done
    ensures !Running(Drive(run)) ==> Drive(run).error.Some?
  {
    DenseKeepsRange(run, dense, start);
  }
}
