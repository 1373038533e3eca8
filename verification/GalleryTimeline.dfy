/**
 The numbered timeline of catalogs that only have Immich sources: rows materialized with
 their position under a generation, rebuilt when the catalog's own generation moves on.
 */
module GalleryTimeline {
  import opened Wrappers
  import opened GalleryRows
  import opened CatalogTables
  import opened GalleryView
  import opened GalleryPaging
  import opened GalleryProjection
  import opened GallerySearch

  datatype Slot = Slot(generation: nat, position: nat)

  datatype TimelineState = TimelineState(generation: nat, canonicalGeneration: nat, scope: set<int>, total: nat)

  /** The configured Immich source keys; validated keys contain no comma, so the set stands for the joined text. */
  function TimelineScope(r: Readiness): Option<set<int>> {
    if r.immichOnly && r.roles.immich != {} then Some(r.roles.immich) else None
  }

  function ImmichRoles(keys: set<int>): Roles {
    Roles({}, keys, {})
  }

  /** What the general query selects when only Immich sources are configured. */
  function GeneralRows(t: Tables, keys: set<int>): set<Row> {
    RowsOf(View(t, ImmichRoles(keys)))
  }

  lemma GeneralRowsUnique(t: Tables, keys: set<int>)
    ensures UniqueIds(GeneralRows(t, keys))
    ensures forall r :: r in GeneralRows(t, keys) <==> ViewRow(t, ImmichRoles(keys), r.id) == Some(r)
  {
    var view := View(t, ImmichRoles(keys));
    ViewIsKeyed(t, ImmichRoles(keys));
    KeyedUnique(view);
  }

  // ------------------------------------------------------------------ ranked sources

  /** An active row of a configured source that is linked to some canonical asset. */
  predicate Ranked(t: Tables, keys: set<int>, k: Key) {
    && k in t.sources && t.sources[k].kind == Immich && k.sourceKey in keys
    && t.sources[k].visibility == Active && t.sources[k].canonicalId.Some?
  }

  /** `best` holds the row of rank 1 of every partition, among the rows looked at. */
  predicate RankOne(t: Tables, keys: set<int>, seen: set<Key>, best: map<int, Key>) {
    && (forall id | id in best ::
        best[id] in seen && Ranked(t, keys, best[id]) && t.sources[best[id]].canonicalId == Some(id))
    && (forall k | k in seen && Ranked(t, keys, k) ::
          var id := t.sources[k].canonicalId.value;
          id in best && (k == best[id] || KeyBefore(best[id], k)))
  }

  /** `ROW_NUMBER() OVER (PARTITION BY canonical ...) = 1` picks what the correlated subquery picks. */
  lemma RankOneIsSelected(t: Tables, keys: set<int>, best: map<int, Key>, id: int)
    requires RankOne(t, keys, t.sources.Keys, best)
    ensures Selected(t, ImmichRoles(keys), id) == if id in best then Some(best[id]) else None
  {
    var candidates := Candidates(t, ImmichRoles(keys), id);
    forall k | k in candidates ensures id in best && Ranked(t, keys, k) && t.sources[k].canonicalId == Some(id) {
      assert Ranked(t, keys, k);
    }
    if id in best {
      assert best[id] in candidates;
      var s := Selected(t, ImmichRoles(keys), id).value;
      assert s != best[id] ==> KeyBefore(best[id], s);
      assert s != best[id] ==> RanksBefore(t, s, best[id]);
    }
  }

  method RankSources(t: Tables, keys: set<int>) returns (best: map<int, Key>)
    ensures RankOne(t, keys, t.sources.Keys, best)
  {
    best := map[];
    var todo := t.sources.Keys;
    while todo != {}
      invariant todo <= t.sources.Keys
      invariant RankOne(t, keys, t.sources.Keys - todo, best)
      decreases todo
    {
      var k :| k in todo;
      todo := todo - {k};
      if Ranked(t, keys, k) {
        var id := t.sources[k].canonicalId.value;
        if id !in best || KeyBefore(k, best[id]) {
          best := best[id := k];
        }
      }
    }
    assert t.sources.Keys - todo == t.sources.Keys;
  }

  /** The row a canonical asset gets from the join with its selected source. */
  function Joined(t: Tables, best: map<int, Key>, id: int): Option<Row> {
    if id in best && id in t.canonical && t.canonical[id].visibility == Active then
      var c := t.canonical[id];
      Some(Row(id, best[id].sourceKey, best[id].assetId, c.media, c.filename, c.capturedAt, c.duration))
    else None
  }

  lemma JoinedIsViewRow(t: Tables, keys: set<int>, best: map<int, Key>, id: int)
    requires RankOne(t, keys, t.sources.Keys, best)
    ensures Joined(t, best, id) == ViewRow(t, ImmichRoles(keys), id)
  {
    RankOneIsSelected(t, keys, best, id);
  }

  method SelectRows(t: Tables, keys: set<int>) returns (rows: set<Row>)
    ensures rows == GeneralRows(t, keys)
  {
    var best := RankSources(t, keys);
    rows := set id | id in t.canonical && Joined(t, best, id).Some? :: Joined(t, best, id).value;
    forall id ensures Joined(t, best, id) == ViewRow(t, ImmichRoles(keys), id) {
      JoinedIsViewRow(t, keys, best, id);
    }
    GeneralRowsUnique(t, keys);
    forall r ensures r in rows <==> r in GeneralRows(t, keys) {
      assert Joined(t, best, r.id) == ViewRow(t, ImmichRoles(keys), r.id);
    }
  }

  // ---------------------------------------------------------------------- numbered rows

  /** The rows of one generation are exactly the listing, numbered from 0. */
  predicate Numbered(rows: map<Slot, Row>, generation: nat, listing: seq<Row>) {
    && (forall i | 0 <= i < |listing| :: Slot(generation, i) in rows && rows[Slot(generation, i)] == listing[i])
    && (forall slot | slot in rows && slot.generation == generation :: slot.position < |listing|)
  }

  function Generation(rows: map<Slot, Row>, generation: nat): set<Slot> {
    set slot | slot in rows && slot.generation == generation
  }

  lemma {:induction false} SlotsOf(generation: nat, n: nat)
    ensures |set i | 0 <= i < n :: Slot(generation, i)| == n
  {
    if n > 0 {
      SlotsOf(generation, n - 1);
      assert (set i | 0 <= i < n :: Slot(generation, i))
          == (set i | 0 <= i < n - 1 :: Slot(generation, i)) + {Slot(generation, n - 1)};
    }
  }

  lemma NumberedCount(rows: map<Slot, Row>, generation: nat, listing: seq<Row>)
    requires Numbered(rows, generation, listing)
    ensures |Generation(rows, generation)| == |listing|
  {
    SlotsOf(generation, |listing|);
    forall slot
      ensures slot in Generation(rows, generation) <==> slot.generation == generation && slot.position < |listing|
    {
      if slot.generation == generation && slot.position < |listing| {
        assert Slot(generation, slot.position) == slot;
      }
    }
    assert Generation(rows, generation) == set i | 0 <= i < |listing| :: Slot(generation, i);
  }

  predicate IsFirstBefore(rows: map<Slot, Row>, generation: nat, boundary: int, slot: Slot) {
    && slot in rows && slot.generation == generation && rows[slot].capturedAt < boundary
    && forall other | other in rows && other.generation == generation && other != slot ::
         rows[other].capturedAt < boundary ==> Before(rows[slot], rows[other])
  }

  /** The row after the boundary with the smallest position is the first one in gallery order. */
  lemma FirstBeforeIsPosition(rows: map<Slot, Row>, generation: nat, table: set<Row>, boundary: int)
    requires UniqueIds(table) && Numbered(rows, generation, Ordered(table))
    ensures Position(table, boundary) < |table| ==>
              IsFirstBefore(rows, generation, boundary, Slot(generation, Position(table, boundary)))
    ensures forall slot | IsFirstBefore(rows, generation, boundary, slot) ::
        slot.position == Position(table, boundary) < |table|
  {
    PositionCuts(table, boundary);
    var listing, p := Ordered(table), Position(table, boundary);
    if p < |table| {
      forall other | other in rows && other.generation == generation && rows[other].capturedAt < boundary
          && other != Slot(generation, p)
        ensures Before(rows[Slot(generation, p)], rows[other])
      {
        OnGeneration(rows, generation, listing, other);
      }
    }
    forall slot | IsFirstBefore(rows, generation, boundary, slot) ensures slot.position == p < |table| {
      OnGeneration(rows, generation, listing, slot);
      var s := Slot(generation, p);
      assert rows[s] == listing[p];
      assert p <= slot.position;
      assert slot != s ==> Before(rows[slot], rows[s]);
    }
  }

  lemma OnGeneration(rows: map<Slot, Row>, generation: nat, listing: seq<Row>, slot: Slot)
    requires Numbered(rows, generation, listing) && slot in rows && slot.generation == generation
    ensures slot.position < |listing| && rows[slot] == listing[slot.position]
  {
    assert Slot(generation, slot.position) == slot;
  }

  /** Rows and state together are the numbered listing of a table. */
  ghost predicate Holds(rows: map<Slot, Row>, s: TimelineState, table: set<Row>) {
    UniqueIds(table) && s.total == |table| && Numbered(rows, s.generation, Ordered(table))
  }

  // --------------------------------------------------------------------------- building

  /** Insert a listing under a new generation, count it, and prune every other generation. */
  method Replace(rows: map<Slot, Row>, generation: nat, listing: seq<Row>) returns (after: map<Slot, Row>, total: nat)
    requires forall slot | slot in rows :: slot.generation != generation
    ensures Numbered(after, generation, listing) && total == |listing|
    ensures forall slot | slot in after :: slot.generation == generation
  {
    after := rows;
    for n := 0 to |listing|
      invariant Numbered(after, generation, listing[..n])
    {
      after := after[Slot(generation, n) := listing[n]];
    }
    assert listing[..|listing|] == listing;
    NumberedCount(after, generation, listing);
    total := |Generation(after, generation)|;
    after := map slot | slot in after && slot.generation == generation :: after[slot];
  }

  // ---------------------------------------------------------------------------- reading

  /** The number of rows at or after a boundary, read off the first row before it. */
  method FirstPositionBefore(
      rows: map<Slot, Row>, s: TimelineState, boundary: int, ghost table: set<Row>) returns (position: nat)
    requires Holds(rows, s, table)
    ensures position == Position(table, boundary) <= s.total
  {
    FirstBeforeIsPosition(rows, s.generation, table, boundary);
    PositionCuts(table, boundary);
    var older := set slot | slot in rows && slot.generation == s.generation && rows[slot].capturedAt < boundary;
    if older == {} {
      ghost var first := Slot(s.generation, Position(table, boundary));
      assert first !in older;
      return s.total;
    }
    SomeIsOlder(rows, s, older, boundary, table);
    var slot :| slot in older && IsFirstBefore(rows, s.generation, boundary, slot);
    position := slot.position;
  }

  lemma SomeIsOlder(rows: map<Slot, Row>, s: TimelineState, older: set<Slot>, boundary: int, table: set<Row>)
    requires Holds(rows, s, table) && older != {}
    requires forall slot | slot in older ::
        slot in rows && slot.generation == s.generation && rows[slot].capturedAt < boundary
    ensures Position(table, boundary) < |table|
  {
    PositionCuts(table, boundary);
    var slot :| slot in older;
    OnGeneration(rows, s.generation, Ordered(table), slot);
  }

  /** The positions a capture-time filter spans. */
  method Bounds(
      rows: map<Slot, Row>, s: TimelineState, filters: Filters, ghost table: set<Row>) returns (start: nat, end: nat)
    requires Holds(rows, s, table) && filters.mediaTypes == {}
    ensures start <= end <= s.total
    ensures Matching(Ordered(table), filters) == Ordered(table)[start..end]
  {
    start, end := 0, s.total;
    if filters.capturedAt.Some? {
      if filters.capturedAt.value.to.Some? {
        start := FirstPositionBefore(rows, s, filters.capturedAt.value.to.value, table);
      }
      if filters.capturedAt.value.from.Some? {
        end := FirstPositionBefore(rows, s, filters.capturedAt.value.from.value, table);
      }
      end := Max(start, end);
      RangeByPosition(table, filters);
    } else {
      UnfilteredMatchesAll(Ordered(table), filters);
    }
  }

  /** The rows at positions `from` up to `to`, at most `limit` of them, in order. */
  method ReadPositions(rows: map<Slot, Row>, generation: nat, from: nat, to: nat, limit: nat, ghost listing: seq<Row>)
    returns (page: seq<Row>)
    requires Numbered(rows, generation, listing) && to <= |listing|
    ensures page == Slice(listing, from, Min(limit, if from < to then to - from else 0))
  {
    page := [];
    if from >= to {
      return;
    }
    var stop := from + Min(limit, to - from);
    for position := from to stop
      invariant page == listing[from..position]
    {
      page := page + [rows[Slot(generation, position)]];
    }
  }

  /** With a media filter: select, sort, slice and count. */
  method FetchFiltered(
      rows: map<Slot, Row>, s: TimelineState, filters: Filters, offset: nat, limit: nat, ghost table: set<Row>)
    returns (fetched: seq<Row>, total: nat)
    requires Holds(rows, s, table)
    ensures fetched == Slice(Matching(Ordered(table), filters), offset, limit)
    ensures total == |Matching(Ordered(table), filters)|
  {
    var stored := set slot | slot in rows && slot.generation == s.generation :: rows[slot];
    StoredRows(rows, s.generation, table);
    SelectIsFilter(table, Wanted(filters));
    var selected := Satisfying(stored, Wanted(filters));
    total := |selected|;
    var sorted := Sort(selected);
    fetched := Slice(sorted, offset, limit);
  }

  /** A page of the numbered rows: by position unless media types are filtered. */
  method ReadPage(rows: map<Slot, Row>, s: TimelineState, req: Request, ghost table: set<Row>) returns (page: Page)
    requires Holds(rows, s, table) && req.size > 0
    ensures page == GeneralPage(Ordered(table), req)
  {
    var fetched: seq<Row>, total: nat;
    if req.filters.mediaTypes == {} {
      fetched, total := FetchPositions(rows, s, req.filters, req.index * req.size, QueryLimit(req), table);
    } else {
      fetched, total := FetchFiltered(rows, s, req.filters, req.index * req.size, QueryLimit(req), table);
    }
    page := Finish(fetched, total, req);
  }

  /** Without a media filter: seek by position. */
  method FetchPositions(
      rows: map<Slot, Row>, s: TimelineState, filters: Filters, offset: nat, limit: nat, ghost table: set<Row>)
    returns (fetched: seq<Row>, total: nat)
    requires Holds(rows, s, table) && filters.mediaTypes == {}
    ensures fetched == Slice(Matching(Ordered(table), filters), offset, limit)
    ensures total == |Matching(Ordered(table), filters)|
  {
    var start, end := Bounds(rows, s, filters, table);
    total := end - start;
    SliceOfRange(Ordered(table), start, end, offset, limit);
    fetched := ReadPositions(rows, s.generation, start + offset, end, limit, Ordered(table));
  }

  // -------------------------------------------------------------------------- the store

  /** A state that is not behind the catalog shows the catalog; older ones are complete but outdated. */
  ghost predicate Shows(rows: map<Slot, Row>, state: Option<TimelineState>, canonicalGeneration: nat, tables: Tables) {
    && (state.None? ==> rows == map[])
    && (state.Some? ==>
          var s := state.value;
          && s.canonicalGeneration <= canonicalGeneration
          && (forall slot | slot in rows :: slot.generation == s.generation)
          && (exists table :: Holds(rows, s, table))
          && (s.canonicalGeneration == canonicalGeneration ==> Holds(rows, s, GeneralRows(tables, s.scope))))
  }

  /** Advancing the generation with every canonical change leaves no state that claims too much. */
  lemma ChangesAreSeen(
      rows: map<Slot, Row>, state: Option<TimelineState>, generation: nat, before: Tables, after: Tables, changed: bool)
    requires Shows(rows, state, generation, before)
    requires !changed ==> forall keys :: GeneralRows(after, keys) == GeneralRows(before, keys)
    ensures Shows(rows, state, if changed then generation + 1 else generation, after)
  {
    if state.Some? && !changed {
      assert GeneralRows(after, state.value.scope) == GeneralRows(before, state.value.scope);
    }
  }

  class TimelineStore {
    var tables: Tables
    var canonicalGeneration: nat
    var state: Option<TimelineState>
    var rows: map<Slot, Row>

    ghost predicate Valid()
      reads this
    {
      Shows(rows, state, canonicalGeneration, tables)
    }

    constructor (tables: Tables)
      ensures Valid() && this.tables == tables && state.None?
    {
      this.tables, canonicalGeneration, state, rows := tables, 1, None, map[];
    }

    /** The state a query may use: built for the caller's scope at the catalog's present generation. */
    predicate Serves(scope: Option<set<int>>)
      reads this
    {
      scope.Some? && state.Some? && state.value.scope == scope.value
          && state.value.canonicalGeneration == canonicalGeneration
    }

    method Rebuild(readiness: Readiness)
      requires Valid()
      modifies `state, `rows
      ensures Valid()
      ensures !readiness.immichOnly || readiness.roles.immich == {} ==> state.None? && rows == map[]
      ensures readiness.immichOnly && readiness.roles.immich != {} ==>
                && state.Some? && state.value.scope == readiness.roles.immich
                && state.value.canonicalGeneration == canonicalGeneration
                && state.value.generation == (if old(state).Some? then old(state).value.generation else 0) + 1
    {
      var scope := TimelineScope(readiness);
      if scope.None? {
        state := None;
        rows := map[];
        return;
      }
      var generation := (if state.Some? then state.value.generation else 0) + 1;
      var selected := SelectRows(tables, scope.value);
      GeneralRowsUnique(tables, scope.value);
      var sorted := Sort(selected);
      var built, total := Replace(rows, generation, sorted);
      rows := built;
      state := Some(TimelineState(generation, canonicalGeneration, scope.value, total));
      assert Holds(rows, state.value, GeneralRows(tables, scope.value));
    }

    /** `ensureGalleryTimeline`: rebuild unless the state is already the right one. */
    method Ensure(readiness: Readiness)
      requires Valid()
      modifies `state, `rows
      ensures Valid()
      ensures Serves(TimelineScope(readiness)) <==> readiness.immichOnly && readiness.roles.immich != {}
      ensures !Serves(TimelineScope(readiness)) ==> state.None?
    {
      if !Serves(TimelineScope(readiness)) {
        Rebuild(readiness);
      }
    }

    /**
     A transaction that changes the catalog: it advances the generation when canonical assets
     changed, and then brings the timeline up to date before it commits.
     */
    method Commit(after: Tables, canonicalChanged: bool, readiness: Readiness)
      requires Valid()
      requires !canonicalChanged ==> forall keys :: GeneralRows(after, keys) == GeneralRows(tables, keys)
      modifies this
      ensures Valid() && tables == after
      ensures canonicalGeneration == old(canonicalGeneration) + if canonicalChanged then 1 else 0
      ensures Serves(TimelineScope(readiness)) <==> readiness.immichOnly && readiness.roles.immich != {}
      ensures !Serves(TimelineScope(readiness)) ==> state.None?
    {
      ChangesAreSeen(rows, state, canonicalGeneration, tables, after, canonicalChanged);
      tables := after;
      if canonicalChanged {
        canonicalGeneration := canonicalGeneration + 1;
      }
      var needed := if TimelineScope(readiness).None? then state.Some? else !Serves(TimelineScope(readiness));
      if needed {
        Rebuild(readiness);
      }
    }

    /** Search the timeline; nothing is served from a state of another scope or generation. */
    method Search(readiness: Readiness, req: Request) returns (page: Option<Page>)
      requires Valid() && req.size > 0
      ensures page.Some? <==> Serves(TimelineScope(readiness))
      ensures page.Some? ==>
                && UniqueIds(GeneralRows(tables, readiness.roles.immich))
                && page.value == GeneralPage(Ordered(GeneralRows(tables, readiness.roles.immich)), req)
    {
      if !Serves(TimelineScope(readiness)) {
        return None;
      }
      var found := ReadPage(rows, state.value, req, GeneralRows(tables, state.value.scope));
      page := Some(found);
    }
  }

  lemma StoredRows(rows: map<Slot, Row>, generation: nat, table: set<Row>)
    requires UniqueIds(table) && Numbered(rows, generation, Ordered(table))
    ensures (set slot | slot in rows && slot.generation == generation :: rows[slot]) == table
  {
    var listing := Ordered(table);
    forall r | r in table ensures exists slot :: slot in rows && slot.generation == generation && rows[slot] == r {
      assert r in listing;
      var i :| 0 <= i < |listing| && listing[i] == r;
      assert rows[Slot(generation, i)] == r;
    }
    forall slot | slot in rows && slot.generation == generation ensures rows[slot] in table {
      OnGeneration(rows, generation, listing, slot);
      assert listing[slot.position] in listing;
    }
  }

  /** Positions turn a capture-time filter into one range of the listing. */
  lemma RangeByPosition(table: set<Row>, filters: Filters)
    requires UniqueIds(table) && filters.mediaTypes == {} && filters.capturedAt.Some?
    ensures var range, listing := filters.capturedAt.value, Ordered(table);
            var start := if range.to.Some? then Position(table, range.to.value) else 0;
            var end := if range.from.Some? then Position(table, range.from.value) else |listing|;
            && start <= |listing| && end <= |listing|
            && Matching(listing, filters) == listing[start..Max(start, end)]
  {
    var range := filters.capturedAt.value;
    if range.to.Some? { PositionBeforeIsPosition(table, range.to.value); }
    if range.from.Some? { PositionBeforeIsPosition(table, range.from.value); }
    RangeIsBetweenPositions(table, filters);
  }
}
