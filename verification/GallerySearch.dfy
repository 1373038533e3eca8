/**
 The seek-based search over the projection: day prefix sums, an anchor inside one day, and
 a bounded merge of the two branches after the anchor. Every query is stated over the
 unordered table; the lemmas locate its result in the sorted listing.
 */
module GallerySearch {
  import opened Wrappers
  import opened GalleryRows
  import opened GalleryView
  import opened DayIndex
  import opened GalleryPaging
  import opened GalleryProjection

  function AtOrAfter(boundary: int): Row -> bool {
    (r: Row) => r.capturedAt >= boundary
  }

  /** Captured in the half-open interval of two instants. */
  function Between(from: int, to: int): Row -> bool {
    (r: Row) => from <= r.capturedAt < to
  }

  function SameTimeFrom(anchor: Row): Row -> bool {
    (r: Row) => r.capturedAt == anchor.capturedAt && r.id >= anchor.id
  }

  function OlderThan(anchor: Row): Row -> bool {
    (r: Row) => r.capturedAt < anchor.capturedAt
  }

  function DayStart(day: int): int { day * DAY }

  /** `galleryProjectionPositionBeforeSQL`: newer whole days plus the boundary's partial day. */
  function PositionBefore(table: set<Row>, days: map<int, nat>, boundary: int): nat {
    var day := Day(boundary);
    SumCounts(Newer(days, day)) + |Satisfying(table, Between(boundary, DayStart(day + 1)))|
  }

  /** `galleryProjectionAnchorWithinDaySQL`: the row at an offset within one day. */
  ghost function AnchorWithinDay(table: set<Row>, day: int, offset: nat): Option<Row>
    requires UniqueIds(table)
  {
    var inDay := Select(table, Between(DayStart(day), DayStart(day + 1)));
    if offset < |inDay| then Some(inDay[offset]) else None
  }

  ghost function AnchorAtOffset(table: set<Row>, days: map<int, nat>, offset: nat): Option<Row>
    requires UniqueIds(table)
  {
    var span := DayAtOffset(days, offset, 0);
    if span.None? || span.value.start > offset then None
    else AnchorWithinDay(table, span.value.day, offset - span.value.start)
  }

  /** `galleryProjectionAfterAnchorSQL`: both branches limited, then merged and limited again. */
  ghost function AfterAnchor(table: set<Row>, anchor: Row, limit: nat): seq<Row>
    requires UniqueIds(table)
  {
    var sameTime := Slice(Select(table, SameTimeFrom(anchor)), 0, limit);
    var older := Slice(Select(table, OlderThan(anchor)), 0, limit);
    Slice(Ordered(set r | r in table && (r in sameTime || r in older)), 0, limit)
  }

  // ------------------------------------------------------ positions in the listing

  /** The number of rows captured at or after an instant. */
  function Position(table: set<Row>, boundary: int): nat {
    |Satisfying(table, AtOrAfter(boundary))|
  }

  lemma ListsTail(s: seq<Row>, table: set<Row>)
    requires Lists(s, table) && s != []
    ensures Lists(s[1..], table - {s[0]})
    ensures forall r | r in table - {s[0]} :: Before(s[0], r)
  {
    assert s == [s[0]] + s[1..];
    assert forall r | r in s[1..] :: Before(s[0], r);
  }

  /** Taking the first row away from a table lowers a position by one, or there is nothing to count. */
  lemma PositionOfRest(table: set<Row>, m: Row, boundary: int)
    requires m in table && forall r | r in table - {m} :: Before(m, r)
    ensures m.capturedAt >= boundary ==> Position(table, boundary) == Position(table - {m}, boundary) + 1
    ensures m.capturedAt < boundary ==> Position(table, boundary) == 0 == Position(table - {m}, boundary)
  {
    var all, rest := Satisfying(table, AtOrAfter(boundary)), Satisfying(table - {m}, AtOrAfter(boundary));
    if m.capturedAt >= boundary {
      assert all == rest + {m};
    } else {
      assert forall r | r in table :: r == m || r in table - {m};
      assert all == {} && rest == {};
    }
  }

  lemma {:induction false} CutOfListing(s: seq<Row>, table: set<Row>, boundary: int)
    requires Lists(s, table)
    ensures Position(table, boundary) <= |s|
    ensures forall i | 0 <= i < |s| :: s[i].capturedAt >= boundary <==> i < Position(table, boundary)
  {
    if s == [] {
    } else {
      ListsTail(s, table);
      PositionOfRest(table, s[0], boundary);
      CutOfListing(s[1..], table - {s[0]}, boundary);
      forall i | 0 <= i < |s| ensures s[i].capturedAt >= boundary <==> i < Position(table, boundary) {
        if i > 0 { assert s[i] == s[1..][i - 1]; }
      }
    }
  }

  /** That number is where the instant cuts the listing. */
  lemma PositionCuts(table: set<Row>, boundary: int)
    requires UniqueIds(table)
    ensures Position(table, boundary) <= |table|
    ensures forall i | 0 <= i < |table| :: Ordered(table)[i].capturedAt >= boundary <==> i < Position(table, boundary)
  {
    CutOfListing(Ordered(table), table, boundary);
  }

  lemma DayBounds(time: int, day: int)
    ensures Day(time) > day <==> time >= DayStart(day + 1)
    ensures Day(time) >= day <==> time >= DayStart(day)
  {
  }

  /** The rows newer than a day are the rows from the next day's start on. */
  lemma NewerIsPosition(table: set<Row>, day: int)
    ensures |NewerRows(table, day)| == Position(table, DayStart(day + 1))
  {
    forall r: Row ensures Day(r.capturedAt) > day <==> r.capturedAt >= DayStart(day + 1) {
      DayBounds(r.capturedAt, day);
    }
    assert NewerRows(table, day) == Satisfying(table, AtOrAfter(DayStart(day + 1)));
  }

  /** Rows between two instants are the difference of their positions. */
  lemma PositionsDiffer(table: set<Row>, from: int, to: int)
    requires from <= to
    ensures Position(table, from) == Position(table, to) + |Satisfying(table, Between(from, to))|
  {
    var a, b := Satisfying(table, AtOrAfter(to)), Satisfying(table, Between(from, to));
    assert Satisfying(table, AtOrAfter(from)) == a + b;
    assert a !! b;
  }

  /** The day index converts a boundary into its position. */
  lemma PositionBeforeIsPosition(table: set<Row>, boundary: int)
    ensures PositionBefore(table, Histogram(table), boundary) == Position(table, boundary)
  {
    var day := Day(boundary);
    DayBounds(boundary, day);
    SumOfNewer(table, day);
    NewerIsPosition(table, day);
    assert boundary <= DayStart(day + 1);
    PositionsDiffer(table, boundary, DayStart(day + 1));
  }

  /** A day's rows lie between the positions of its two bounds. */
  lemma RowsOfDay(table: set<Row>, day: int)
    ensures Position(table, DayStart(day)) == Position(table, DayStart(day + 1)) + |OnDay(table, day)|
  {
    forall r: Row
      ensures Day(r.capturedAt) == day <==> DayStart(day) <= r.capturedAt < DayStart(day + 1)
    {
      DayBounds(r.capturedAt, day);
    }
    assert OnDay(table, day) == Satisfying(table, Between(DayStart(day), DayStart(day + 1)));
    PositionsDiffer(table, DayStart(day), DayStart(day + 1));
  }

  /** Selecting between two instants selects the listing between their positions. */
  lemma BetweenIsRange(table: set<Row>, from: int, to: int)
    requires UniqueIds(table) && from <= to
    ensures Position(table, to) <= Position(table, from) <= |table|
    ensures Select(table, Between(from, to)) == Ordered(table)[Position(table, to)..Position(table, from)]
  {
    PositionsDiffer(table, from, to);
    PositionCuts(table, from);
    PositionCuts(table, to);
    SelectIsFilter(table, Between(from, to));
    FilterRange(Ordered(table), Position(table, to), Position(table, from), Between(from, to));
  }

  /** The day found for an offset spans the positions between its two bounds. */
  lemma SpanIsBetweenPositions(table: set<Row>, offset: nat)
    ensures var span := DayAtOffset(Histogram(table), offset, 0);
            && (span.Some? <==> offset < |table|)
            && (span.Some? ==>
                  && span.value.start == Position(table, DayStart(span.value.day + 1))
                  && span.value.start <= offset < Position(table, DayStart(span.value.day)))
  {
    SpanOfRows(table, offset);
    var span := DayAtOffset(Histogram(table), offset, 0);
    if span.Some? {
      NewerIsPosition(table, span.value.day);
      RowsOfDay(table, span.value.day);
    }
  }

  /** The anchor at an offset is the listing's row at that offset. */
  lemma AnchorIsRow(table: set<Row>, offset: nat)
    requires UniqueIds(table)
    ensures AnchorAtOffset(table, Histogram(table), offset)
         == if offset < |table| then Some(Ordered(table)[offset]) else None
  {
    SpanIsBetweenPositions(table, offset);
    AnchorOfSpan(table, Histogram(table), offset);
  }

  /** The anchor follows from the span alone, wherever the day counts come from. */
  lemma AnchorOfSpan(table: set<Row>, days: map<int, nat>, offset: nat)
    requires UniqueIds(table)
    requires var span := DayAtOffset(days, offset, 0);
             && (span.Some? <==> offset < |table|)
             && (span.Some? ==>
                   && span.value.start == Position(table, DayStart(span.value.day + 1))
                   && span.value.start <= offset < Position(table, DayStart(span.value.day)))
    ensures AnchorAtOffset(table, days, offset) == if offset < |table| then Some(Ordered(table)[offset]) else None
  {
    var span := DayAtOffset(days, offset, 0);
    if span.Some? {
      WithinDay(table, span.value.day, offset);
    }
  }

  /** Within one day, the row at a position is at that position minus the day's start. */
  lemma WithinDay(table: set<Row>, day: int, offset: nat)
    requires UniqueIds(table)
    requires Position(table, DayStart(day + 1)) <= offset < Position(table, DayStart(day))
    ensures offset < |table|
    ensures AnchorWithinDay(table, day, offset - Position(table, DayStart(day + 1))) == Some(Ordered(table)[offset])
  {
    BetweenIsRange(table, DayStart(day), DayStart(day + 1));
    IndexInRange(Ordered(table), Position(table, DayStart(day + 1)), Position(table, DayStart(day)), offset);
  }

  lemma IndexInRange(s: seq<Row>, lo: nat, hi: nat, i: nat)
    requires lo <= i < hi <= |s|
    ensures i - lo < |s[lo..hi]| && s[lo..hi][i - lo] == s[i]
  {
  }

  /** Merging the two bounded branches gives the listing from the anchor on. */
  lemma AfterAnchorIsSlice(table: set<Row>, offset: nat, limit: nat)
    requires UniqueIds(table) && offset < |table|
    ensures AfterAnchor(table, Ordered(table)[offset], limit) == Slice(Ordered(table), offset, limit)
  {
    var listing := Ordered(table);
    var anchor := listing[offset];
    var end := Position(table, anchor.capturedAt);
    BranchesOfAnchor(table, offset);
    var a, b := Slice(listing[offset..end], 0, limit), Slice(listing[end..], 0, limit);
    MergeOfSlices(listing, offset, end, limit);
    forall r ensures r in a + b <==> r in table && (r in a || r in b) {
      if r in a { assert r in listing[offset..end]; assert r in listing; }
      if r in b { assert r in listing[end..]; assert r in listing; }
    }
    OrderedOfSorted(a + b, set r | r in table && (r in a || r in b));
  }

  /** The two branches after an anchor are two adjacent ranges of the listing. */
  lemma BranchesOfAnchor(table: set<Row>, offset: nat)
    requires UniqueIds(table) && offset < |table|
    ensures var listing := Ordered(table);
            var end := Position(table, listing[offset].capturedAt);
            && offset < end <= |listing|
            && Select(table, SameTimeFrom(listing[offset])) == listing[offset..end]
            && Select(table, OlderThan(listing[offset])) == listing[end..]
  {
    var listing := Ordered(table);
    var anchor := listing[offset];
    var end := Position(table, anchor.capturedAt);
    PositionCuts(table, anchor.capturedAt);
    forall i | 0 <= i < |listing| ensures SameTimeFrom(anchor)(listing[i]) <==> offset <= i < end {
      if i < offset { assert Before(listing[i], anchor); }
      if offset < i { assert Before(anchor, listing[i]); }
    }
    SelectIsFilter(table, SameTimeFrom(anchor));
    FilterRange(listing, offset, end, SameTimeFrom(anchor));
    SelectIsFilter(table, OlderThan(anchor));
    FilterRange(listing, end, |listing|, OlderThan(anchor));
  }

  lemma MergeOfSlices(s: seq<Row>, from: nat, mid: nat, limit: nat)
    requires Sorted(s) && from <= mid <= |s|
    ensures var merged := Slice(s[from..mid], 0, limit) + Slice(s[mid..], 0, limit);
            Sorted(merged) && Slice(merged, 0, limit) == Slice(s, from, limit)
  {
    var x, y := Min(from + limit, mid), Min(mid + limit, |s|);
    assert Slice(s[from..mid], 0, limit) == s[from..x];
    assert Slice(s[mid..], 0, limit) == s[mid..y];
    RangesSorted(s, from, x, mid, y);
    if from + limit <= mid {
      TakeFirst(s[from..x], s[mid..y], limit);
    } else {
      JoinRanges(s, from, mid, y);
      TakeRange(s, from, y, limit);
    }
  }

  lemma RangesSorted(s: seq<Row>, from: nat, x: nat, mid: nat, y: nat)
    requires Sorted(s) && from <= x <= mid <= y <= |s|
    ensures Sorted(s[from..x] + s[mid..y])
  {
    var merged := s[from..x] + s[mid..y];
    forall i, j | 0 <= i < j < |merged| ensures Before(merged[i], merged[j]) {
      var i' := if i < x - from then from + i else mid + i - (x - from);
      var j' := if j < x - from then from + j else mid + j - (x - from);
      assert merged[i] == s[i'] && merged[j] == s[j'] && i' < j';
    }
  }

  lemma TakeFirst(a: seq<Row>, b: seq<Row>, limit: nat)
    requires |a| == limit
    ensures Slice(a + b, 0, limit) == a
  {
    assert (a + b)[..limit] == a;
  }

  lemma JoinRanges(s: seq<Row>, from: nat, mid: nat, y: nat)
    requires from <= mid <= y <= |s|
    ensures s[from..mid] + s[mid..y] == s[from..y]
  {
  }

  lemma TakeRange(s: seq<Row>, from: nat, y: nat, limit: nat)
    requires from <= y <= |s| && Min(from + limit, |s|) <= y
    ensures Slice(s[from..y], 0, limit) == Slice(s, from, limit)
  {
    assert s[from..y][..Min(limit, y - from)] == s[from..Min(from + limit, y)];
  }

  // ------------------------------------------------------------- the search method

  /** The two queries of `galleryProjectionAnchorAtOffset`. */
  method FindAnchor(table: set<Row>, days: map<int, nat>, offset: nat) returns (anchor: Option<Row>)
    requires UniqueIds(table)
    ensures anchor == AnchorAtOffset(table, days, offset)
  {
    var span := DayAtOffset(days, offset, 0);
    if span.None? || span.value.start > offset {
      return None;
    }
    var inDay := Sort(Satisfying(table, Between(DayStart(span.value.day), DayStart(span.value.day + 1))));
    var within := offset - span.value.start;
    anchor := if within < |inDay| then Some(inDay[within]) else None;
  }

  method ReadAfterAnchor(table: set<Row>, anchor: Row, limit: nat) returns (rows: seq<Row>)
    requires UniqueIds(table)
    ensures rows == AfterAnchor(table, anchor, limit)
  {
    var sameTime := Sort(Satisfying(table, SameTimeFrom(anchor)));
    var older := Sort(Satisfying(table, OlderThan(anchor)));
    sameTime, older := Slice(sameTime, 0, limit), Slice(older, 0, limit);
    var merged := Sort(set r | r in table && (r in sameTime || r in older));
    rows := Slice(merged, 0, limit);
  }

  /** Seek to an offset of the whole listing and read at most `limit` rows from there. */
  method SeekPage(table: set<Row>, days: map<int, nat>, offset: nat, limit: nat) returns (rows: seq<Row>)
    requires UniqueIds(table) && days == Histogram(table)
    ensures rows == Slice(Ordered(table), offset, limit)
  {
    AnchorIsRow(table, offset);
    rows := [];
    var anchor := FindAnchor(table, days, offset);
    if anchor.Some? {
      AfterAnchorIsSlice(table, offset, limit);
      rows := ReadAfterAnchor(table, anchor.value, limit);
    }
  }

  function Max(a: nat, b: nat): nat { if a < b then b else a }

  /** The rows between two boundaries are the listing between their positions. */
  lemma RangeIsBetweenPositions(table: set<Row>, filters: Filters)
    requires UniqueIds(table)
    requires filters.mediaTypes == {} && filters.capturedAt.Some?
    ensures var range, listing := filters.capturedAt.value, Ordered(table);
            var start := if range.to.Some? then PositionBefore(table, Histogram(table), range.to.value) else 0;
            var end := if range.from.Some?
                       then PositionBefore(table, Histogram(table), range.from.value)
                       else |listing|;
            && start <= |listing| && end <= |listing|
            && Matching(listing, filters) == listing[start..Max(start, end)]
  {
    var range, listing := filters.capturedAt.value, Ordered(table);
    var start, end := 0, |listing|;
    if range.to.Some? {
      PositionBeforeIsPosition(table, range.to.value);
      PositionCuts(table, range.to.value);
      start := Position(table, range.to.value);
    }
    if range.from.Some? {
      PositionBeforeIsPosition(table, range.from.value);
      PositionCuts(table, range.from.value);
      end := Position(table, range.from.value);
    }
    FilterRange(listing, start, Max(start, end), Wanted(filters));
  }

  lemma SliceOfRange(s: seq<Row>, start: nat, end: nat, offset: nat, limit: nat)
    requires start <= end <= |s|
    ensures Slice(s[start..end], offset, limit)
         == Slice(s, start + offset, Min(limit, if start + offset < end then end - (start + offset) else 0))
  {
  }

  lemma UnfilteredMatchesAll(listing: seq<Row>, f: Filters)
    requires Unfiltered(f)
    ensures Matching(listing, f) == listing
  {
    FilterAll(listing, Wanted(f));
  }

  /** The positions a capture-time filter spans in the whole listing. */
  method SeekBounds(table: set<Row>, days: map<int, nat>, filters: Filters) returns (start: nat, end: nat)
    requires UniqueIds(table) && days == Histogram(table)
    requires filters.mediaTypes == {} && filters.capturedAt.Some?
    ensures start <= end <= |table|
    ensures Matching(Ordered(table), filters) == Ordered(table)[start..end]
  {
    RangeIsBetweenPositions(table, filters);
    SumOfHistogram(table);
    var range := filters.capturedAt.value;
    start := 0;
    if range.to.Some? {
      start := PositionBefore(table, days, range.to.value);
    }
    if range.from.Some? {
      end := PositionBefore(table, days, range.from.value);
    } else {
      end := SumCounts(days);
    }
    end := Max(start, end);
  }

  /** A page of a capture-time range, by position. */
  method FetchRange(table: set<Row>, days: map<int, nat>, filters: Filters, offset: nat, limit: nat)
    returns (fetched: seq<Row>, total: nat)
    requires UniqueIds(table) && days == Histogram(table)
    requires filters.mediaTypes == {} && filters.capturedAt.Some?
    ensures fetched == Slice(Matching(Ordered(table), filters), offset, limit)
    ensures total == |Matching(Ordered(table), filters)|
  {
    var start, end := SeekBounds(table, days, filters);
    total := end - start;
    fetched := [];
    var pageStart := start + offset;
    var queryLimit := Min(limit, if pageStart < end then end - pageStart else 0);
    SliceOfRange(Ordered(table), start, end, offset, limit);
    if queryLimit > 0 {
      fetched := SeekPage(table, days, pageStart, queryLimit);
    }
  }

  /** A page and the count of one selection, by query. */
  method FetchQuery(table: set<Row>, days: map<int, nat>, filters: Filters, offset: nat, limit: nat)
    returns (fetched: seq<Row>, total: nat)
    requires UniqueIds(table) && days == Histogram(table)
    ensures fetched == Slice(Matching(Ordered(table), filters), offset, limit)
    ensures total == |Matching(Ordered(table), filters)|
  {
    SelectIsFilter(table, Wanted(filters));
    var selected := Sort(Satisfying(table, Wanted(filters)));
    fetched := Slice(selected, offset, limit);
    if Unfiltered(filters) {
      SumOfHistogram(table);
      UnfilteredMatchesAll(Ordered(table), filters);
      total := SumCounts(days);
    } else {
      total := |Satisfying(table, Wanted(filters))|;
    }
  }

  /** The search over one table: seek when only capture time is filtered, otherwise query. */
  method SearchTable(table: set<Row>, days: map<int, nat>, req: Request) returns (page: Page)
    requires UniqueIds(table) && days == Histogram(table) && req.size > 0
    ensures page == GeneralPage(Ordered(table), req)
  {
    var offset, queryLimit := req.index * req.size, QueryLimit(req);
    var fetched: seq<Row>, total := [], 0;
    if req.filters.mediaTypes == {} && req.filters.capturedAt.Some? {
      fetched, total := FetchRange(table, days, req.filters, offset, queryLimit);
    } else if offset > 0 && Unfiltered(req.filters) {
      UnfilteredMatchesAll(Ordered(table), req.filters);
      fetched := SeekPage(table, days, offset, queryLimit);
    } else {
      fetched, total := FetchQuery(table, days, req.filters, offset, queryLimit);
    }
    page := Finish(fetched, total, req);
  }

  /**
   `searchGalleryProjection`. When the store serves the caller's scope, the page is the
   general query's page over the from-scratch view of the current tables.
   */
  method SearchProjection(store: GalleryStore, readiness: Readiness, req: Request)
    returns (handled: bool, page: Page)
    requires store.Valid() && req.size > 0
    ensures handled <==>
              && !readiness.immichOnly && readiness.roles.local + readiness.roles.immich != {}
              && store.scope == Some(readiness.roles)
    ensures handled ==> UniqueIds(RowsOf(View(store.tables, readiness.roles)))
    ensures handled ==> page == GeneralPage(Ordered(RowsOf(View(store.tables, readiness.roles))), req)
  {
    page := Page([], 0, Exact, None);
    var scopeKey := ScopeKey(readiness);
    if scopeKey.None? || store.scope != scopeKey {
      return false, page;
    }
    handled := true;
    KeyedUnique(store.projection);
    page := SearchTable(RowsOf(store.projection), store.days, req);
  }
}
