/**
 Paging: the request, the page, the query every fast path replaces ("filter, sort,
 slice"), and what following the next-page index delivers.
 */
module GalleryPaging {
  import opened Wrappers
  import opened GalleryRows

  datatype TimeRange = TimeRange(from: Option<int>, to: Option<int>)

  datatype Filters = Filters(mediaTypes: set<Media>, capturedAt: Option<TimeRange>)

  datatype Request = Request(index: nat, size: nat, filters: Filters)

  datatype Accuracy = Exact | LowerBound

  datatype Page = Page(items: seq<Row>, total: nat, accuracy: Accuracy, next: Option<nat>)

  predicate InRange(range: TimeRange, time: int) {
    (range.from.Some? ==> range.from.value <= time) && (range.to.Some? ==> time < range.to.value)
  }

  predicate Matches(f: Filters, r: Row) {
    && (f.mediaTypes != {} ==> r.media in f.mediaTypes)
    && (f.capturedAt.Some? ==> InRange(f.capturedAt.value, r.capturedAt))
  }

  function Wanted(f: Filters): Row -> bool {
    (r: Row) => Matches(f, r)
  }

  predicate Unfiltered(f: Filters) {
    f.mediaTypes == {} && f.capturedAt.None?
  }

  /** Exact totals are counted on the first page and for filtered requests. */
  predicate IncludesTotal(req: Request) {
    req.index == 0 || !Unfiltered(req.filters)
  }

  function QueryLimit(req: Request): nat {
    if IncludesTotal(req) then req.size else req.size + 1
  }

  /** The shared tail of the search functions: trim the look-ahead row, total, next page. */
  function Finish(fetched: seq<Row>, counted: nat, req: Request): Page {
    var offset := req.index * req.size;
    if IncludesTotal(req) then
      Page(fetched, counted, Exact,
           if offset + |fetched| < counted then Some(req.index + 1) else None)
    else if |fetched| > req.size then
      Page(fetched[..req.size], offset + req.size + 1, LowerBound, Some(req.index + 1))
    else if |fetched| == 0 && req.index > 0 then
      Page(fetched, 0, LowerBound, None)
    else
      Page(fetched, offset + |fetched|, Exact, None)
  }

  function Matching(listing: seq<Row>, f: Filters): seq<Row> {
    Filter(listing, Wanted(f))
  }

  /** The general query over a sorted listing: filter, slice, count. */
  function GeneralPage(listing: seq<Row>, req: Request): Page {
    var matching := Matching(listing, req.filters);
    Finish(Slice(matching, req.index * req.size, QueryLimit(req)), |matching|, req)
  }

  /** What a page promises about the whole matching list. */
  lemma PageIsSlice(listing: seq<Row>, req: Request)
    requires req.size > 0
    ensures var page := GeneralPage(listing, req);
            var matching := Matching(listing, req.filters);
            var offset := req.index * req.size;
            && page.items == Slice(matching, offset, req.size)
            && (page.next.Some? <==> offset + req.size < |matching|)
            && (page.next.Some? ==> page.next.value == req.index + 1)
            && (page.accuracy == Exact ==> page.total == |matching|)
            && (page.accuracy == LowerBound ==> page.total <= |matching|)
  {
    assert req.index > 0 ==> req.index * req.size > 0;
  }

  /**
   Totals are exact on the first page, with any filter, and on the last page that has rows;
   elsewhere they promise one row beyond the page, or nothing beyond the end.
   */
  lemma WhenTotalsAreExact(listing: seq<Row>, req: Request)
    requires req.size > 0
    ensures var page := GeneralPage(listing, req);
            var count := |Matching(listing, req.filters)|;
            var offset := req.index * req.size;
            && (page.accuracy == Exact <==>
                  || req.index == 0 || req.filters.mediaTypes != {} || req.filters.capturedAt.Some?
                  || offset < count <= offset + req.size)
            && (page.accuracy == LowerBound ==>
                  page.total == if offset + req.size < count then offset + req.size + 1 else 0)
  {
    assert req.index > 0 ==> req.index * req.size > 0;
  }

  /** A row of an asked media type, captured in the asked interval. */
  predicate AskedFor(f: Filters, r: Row) {
    && (f.mediaTypes == {} || exists media | media in f.mediaTypes :: r.media == media)
    && match f.capturedAt
       case None => true
       case Some(TimeRange(from, to)) =>
         && (from.None? || from.value <= r.capturedAt)
         && (to.None? || r.capturedAt < to.value)
  }

  lemma MatchesIsAskedFor(f: Filters, r: Row)
    ensures Matches(f, r) <==> AskedFor(f, r)
  {
  }

  /** Every item of a page is a row that was asked for. */
  lemma PageHoldsWhatWasAskedFor(listing: seq<Row>, req: Request)
    requires req.size > 0
    ensures forall r | r in GeneralPage(listing, req).items :: r in listing && AskedFor(req.filters, r)
  {
    PageIsSlice(listing, req);
    FilterElements(listing, Wanted(req.filters));
    forall r | r in GeneralPage(listing, req).items ensures r in listing && AskedFor(req.filters, r) {
      assert r in Matching(listing, req.filters);
      MatchesIsAskedFor(req.filters, r);
    }
  }

  /** The pages of one listing. */
  function Pages(listing: seq<Row>, size: nat, filters: Filters): nat -> Page {
    (index: nat) => GeneralPage(listing, Request(index, size, filters))
  }

  /** The rows delivered by following next-page indexes, from page `index` on. */
  function Follow(pages: nat -> Page, index: nat, count: nat): seq<Row>
    decreases count
  {
    if count == 0 then []
    else pages(index).items + if pages(index).next.None? then [] else Follow(pages, pages(index).next.value, count - 1)
  }

  /** The page at an offset is that slice of the list, and says whether rows follow it. */
  predicate Cuts(page: Page, list: seq<Row>, index: nat, offset: nat, size: nat) {
    && page.items == Slice(list, offset, size)
    && page.next == if offset + size < |list| then Some(index + 1) else None
  }

  /** From any page on, the followed pages deliver exactly the rest of the matching list. */
  lemma FollowDeliversRest(listing: seq<Row>, index: nat, size: nat, filters: Filters, count: nat)
    requires size > 0
    requires index * size <= |Matching(listing, filters)| < index * size + count
    ensures Follow(Pages(listing, size, filters), index, count) == Matching(listing, filters)[index * size..]
  {
    forall i: nat ensures Cuts(Pages(listing, size, filters)(i), Matching(listing, filters), i, i * size, size) {
      PageIsSlice(listing, Request(i, size, filters));
    }
    FollowFrom(Pages(listing, size, filters), Matching(listing, filters), index, index * size, size, count);
  }

  lemma {:induction false} FollowFrom(
      pages: nat -> Page, list: seq<Row>, index: nat, offset: nat, size: nat, count: nat)
    requires forall i: nat :: Cuts(pages(i), list, i, i * size, size)
    requires size > 0 && offset == index * size
    requires offset <= |list| < offset + count
    ensures Follow(pages, index, count) == list[offset..]
    decreases count
  {
    assert Cuts(pages(index), list, index, offset, size);
    if offset + size < |list| {
      NextOffset(index, size);
      FollowFrom(pages, list, index + 1, offset + size, size, count - 1);
      RestSplits(list, offset, size);
    }
  }

  lemma NextOffset(index: nat, size: nat)
    ensures (index + 1) * size == index * size + size
  {
  }

  lemma RestSplits(s: seq<Row>, offset: nat, size: nat)
    requires offset + size <= |s|
    ensures s[offset..] == Slice(s, offset, size) + s[offset + size..]
  {
  }

  lemma MatchingIsAskedFor(table: set<Row>, filters: Filters)
    requires UniqueIds(table)
    ensures forall r :: r in Matching(Ordered(table), filters) <==> r in table && AskedFor(filters, r)
  {
    FilterElements(Ordered(table), Wanted(filters));
    forall r ensures Matches(filters, r) <==> AskedFor(filters, r) {
      MatchesIsAskedFor(filters, r);
    }
  }

  /** Over a fixed snapshot, paging from page 0 visits every row that was asked for once, in order. */
  lemma PagesTile(table: set<Row>, size: nat, filters: Filters)
    requires UniqueIds(table) && size > 0
    ensures var visited := Follow(Pages(Ordered(table), size, filters), 0, |table| + 1);
            && visited == Select(table, Wanted(filters))
            && (forall r :: r in visited <==> r in table && AskedFor(filters, r))
            && (forall i, j | 0 <= i < j < |visited| :: visited[i] != visited[j])
  {
    var listing := Ordered(table);
    SelectIsFilter(table, Wanted(filters));
    FollowDeliversRest(listing, 0, size, filters, |table| + 1);
    assert Matching(listing, filters)[0..] == Matching(listing, filters);
    MatchingIsAskedFor(table, filters);
    FilterSorted(listing, Wanted(filters));
  }
}
