/**
 The canonical tables updated in place: rows are read in any order, sorted, scanned, and
 upserted. Each method is proved against the group aggregate, so the read order is proved
 not to matter.
 */
module CanonicalStore {
  import opened Wrappers
  import opened CatalogTables
  import opened CanonicalAssets
  import opened IntegerSets

  predicate Ranked(s: Sources, rows: seq<Key>)
    requires forall i | 0 <= i < |rows| :: rows[i] in s
  {
    forall i, j | 0 <= i < j < |rows| :: Precedes(s, rows[i], rows[j])
  }

  lemma PrecedesIsTotal(s: Sources, a: Key, b: Key)
    requires a in s && b in s && a != b
    ensures Precedes(s, a, b) <==> !Precedes(s, b, a)
  {
  }

  lemma PrecedesIsTransitive(s: Sources, a: Key, b: Key, c: Key)
    requires a in s && b in s && c in s
    requires Precedes(s, a, b) && Precedes(s, b, c)
    ensures Precedes(s, a, c)
  {
  }

  lemma InsertKeepsRank(s: Sources, a: seq<Key>, k: Key, b: seq<Key>)
    requires k in s && (forall x | x in a :: x in s) && forall x | x in b :: x in s
    requires Ranked(s, a + b)
    requires forall i | 0 <= i < |a| :: Precedes(s, a[i], k)
    requires forall i | 0 <= i < |b| :: Precedes(s, k, b[i])
    ensures forall i | 0 <= i < |a + [k] + b| :: (a + [k] + b)[i] in s
    ensures Ranked(s, a + [k] + b)
  {
    var all, old_ := a + [k] + b, a + b;
    forall i | 0 <= i < |all| ensures all[i] in s {
      assert all[i] == if i < |a| then old_[i] else if i == |a| then k else old_[i - 1];
    }
    forall i, j | 0 <= i < j < |all| ensures Precedes(s, all[i], all[j]) {
      assert all[i] == if i < |a| then old_[i] else if i == |a| then k else old_[i - 1];
      assert all[j] == if j < |a| then old_[j] else if j == |a| then k else old_[j - 1];
      if i == |a| { assert all[j] == b[j - |a| - 1]; }
    }
  }

  /** Insert a new row behind everything that precedes it. */
  method InsertSource(s: Sources, sorted: seq<Key>, k: Key) returns (longer: seq<Key>)
    requires k in s && k !in sorted && forall i | 0 <= i < |sorted| :: sorted[i] in s
    requires Ranked(s, sorted)
    ensures |longer| == |sorted| + 1 && forall x :: x in longer <==> x in sorted || x == k
    ensures (forall i | 0 <= i < |longer| :: longer[i] in s) && Ranked(s, longer)
  {
    var at := |sorted|;
    while at > 0 && !Precedes(s, sorted[at - 1], k)
      invariant 0 <= at <= |sorted|
      invariant forall i | at <= i < |sorted| :: Precedes(s, k, sorted[i])
    {
      PrecedesIsTotal(s, sorted[at - 1], k);
      at := at - 1;
    }
    forall i | 0 <= i < at ensures Precedes(s, sorted[i], k) {
      if i < at - 1 { PrecedesIsTransitive(s, sorted[i], sorted[at - 1], k); }
    }
    assert sorted == sorted[..at] + sorted[at..];
    InsertKeepsRank(s, sorted[..at], k, sorted[at..]);
    longer := sorted[..at] + [k] + sorted[at..];
    forall x ensures x in longer <==> x in sorted || x == k {
      assert x in sorted <==> x in sorted[..at] || x in sorted[at..];
    }
  }

  /** Sort distinct rows by insertion. */
  method SortSources(s: Sources, rows: seq<Key>) returns (sorted: seq<Key>)
    requires forall k | k in rows :: k in s
    requires forall i, j | 0 <= i < j < |rows| :: rows[i] != rows[j]
    ensures |sorted| == |rows| && forall k :: k in sorted <==> k in rows
    ensures (forall i | 0 <= i < |sorted| :: sorted[i] in s) && Ranked(s, sorted)
  {
    sorted := [];
    var n := 0;
    while n < |rows|
      invariant 0 <= n <= |rows| && |sorted| == n
      invariant forall k :: k in sorted <==> k in rows[..n]
      invariant forall i | 0 <= i < |sorted| :: sorted[i] in s
      invariant Ranked(s, sorted)
    {
      assert rows[n] in rows && rows[n] !in rows[..n];
      sorted := InsertSource(s, sorted, rows[n]);
      assert rows[..n + 1] == rows[..n] + [rows[n]];
      n := n + 1;
    }
    assert rows[..n] == rows;
  }

  /** In a ranked sequence the first element is the primary of its elements. */
  lemma HeadIsPrimary(s: Sources, rows: seq<Key>, keys: set<Key>)
    requires keys <= s.Keys && rows != [] && forall k :: k in rows <==> k in keys
    requires forall i | 0 <= i < |rows| :: rows[i] in s
    requires Ranked(s, rows)
    ensures keys != {} && rows[0] == Primary(s, keys)
  {
    assert rows[0] in keys;
    assert IsPrimary(s, keys, rows[0]);
  }

  /** The first ranked row with a property is the primary of the rows that have it. */
  lemma FirstIsPrimary(s: Sources, rows: seq<Key>, n: nat, keys: set<Key>)
    requires keys <= s.Keys && n < |rows| && rows[n] in keys
    requires forall i | 0 <= i < |rows| :: rows[i] in s
    requires Ranked(s, rows)
    requires forall k | k in keys :: k in rows
    requires forall i | 0 <= i < n :: rows[i] !in keys
    ensures keys != {} && rows[n] == Primary(s, keys)
  {
    forall k | k in keys && k != rows[n] ensures Precedes(s, rows[n], k) {
      var i :| 0 <= i < |rows| && rows[i] == k;
    }
    assert IsPrimary(s, keys, rows[n]);
  }

  /** The duration of a sorted group: the primary's, or the first active one that is known. */
  method PickDuration(s: Sources, rows: seq<Key>, ghost keys: set<Key>) returns (duration: Option<string>)
    requires keys <= s.Keys && rows != [] && forall k :: k in rows <==> k in keys
    requires (forall i | 0 <= i < |rows| :: rows[i] in s) && Ranked(s, rows)
    ensures keys != {} && duration == DurationOf(s, keys)
  {
    HeadIsPrimary(s, rows, keys);
    duration := s[rows[0]].duration;
    if Blank(duration) {
      var n := 0;
      while n < |rows|
        invariant 0 <= n <= |rows|
        invariant duration == s[rows[0]].duration
        invariant forall i | 0 <= i < n :: rows[i] !in WithDuration(s, keys)
      {
        var row := s[rows[n]];
        if row.visibility == Active && !Blank(row.duration) {
          FirstIsPrimary(s, rows, n, WithDuration(s, keys));
          duration := row.duration;
          return;
        }
        n := n + 1;
      }
      assert WithDuration(s, keys) == {};
    }
  }

  /** The earliest first-seen time and whether any source is a favorite. */
  method ScanGroup(s: Sources, rows: seq<Key>, ghost keys: set<Key>) returns (firstSeen: int, favorite: bool)
    requires keys <= s.Keys && rows != [] && forall k :: k in rows <==> k in keys
    requires forall i | 0 <= i < |rows| :: rows[i] in s
    ensures keys != {} && firstSeen == FirstSeen(s, keys)
    ensures favorite <==> exists k :: k in keys && s[k].favorite
  {
    firstSeen, favorite := s[rows[0]].firstSeenAt, s[rows[0]].favorite;
    var n := 0;
    while n < |rows|
      invariant 0 <= n <= |rows|
      invariant exists k :: k in keys && s[k].firstSeenAt == firstSeen
      invariant forall i | 0 <= i < n :: firstSeen <= s[rows[i]].firstSeenAt
      invariant favorite ==> exists k :: k in keys && s[k].favorite
      invariant forall i | 0 <= i < n && s[rows[i]].favorite :: favorite
    {
      var row := s[rows[n]];
      assert rows[n] in keys;
      if row.firstSeenAt < firstSeen {
        firstSeen := row.firstSeenAt;
      }
      favorite := favorite || row.favorite;
      n := n + 1;
    }
    forall k | k in keys ensures firstSeen <= s[k].firstSeenAt && (s[k].favorite ==> favorite) {
      var i :| 0 <= i < |rows| && rows[i] == k;
    }
    assert IsFirstSeen(s, keys, firstSeen);
  }

  lemma RebuiltOne(s: Sources, c: Canonicals, id: int, now: int)
    ensures RebuiltIds(s, c, {id}, now)
         == if Group(s, id) == {} then c - {id}
            else c[id := Upserted(c, id, Aggregate(s, Group(s, id), now))]
  {
  }

  lemma RebuiltOneMore(s: Sources, c: Canonicals, done: set<int>, id: int, now: int)
    requires id !in done
    ensures RebuiltIds(s, RebuiltIds(s, c, done, now), {id}, now) == RebuiltIds(s, c, done + {id}, now)
  {
    var a, b := RebuiltIds(s, RebuiltIds(s, c, done, now), {id}, now), RebuiltIds(s, c, done + {id}, now);
    forall x ensures Entry(a, x) == Entry(b, x) {
      RebuiltOneMoreAt(s, c, done, id, x, now);
    }
    SameEntries(a, b);
  }

  function Entry(c: Canonicals, id: int): Option<CanonicalRow> {
    if id in c then Some(c[id]) else None
  }

  lemma SameEntries(a: Canonicals, b: Canonicals)
    requires forall id :: Entry(a, id) == Entry(b, id)
    ensures a == b
  {
    forall id ensures id in a <==> id in b { assert Entry(a, id) == Entry(b, id); }
    forall id | id in a ensures a[id] == b[id] { assert Entry(a, id) == Entry(b, id); }
  }

  lemma RebuiltOneMoreAt(s: Sources, c: Canonicals, done: set<int>, id: int, x: int, now: int)
    requires id !in done
    ensures Entry(RebuiltIds(s, RebuiltIds(s, c, done, now), {id}, now), x)
        == Entry(RebuiltIds(s, c, done + {id}, now), x)
  {
    RebuiltIsPointwise(s, c, done, x, now);
    RebuiltIsPointwise(s, RebuiltIds(s, c, done, now), {id}, x, now);
    RebuiltIsPointwise(s, c, done + {id}, x, now);
  }

  /** A table in the middle of relinking: `todo` is still as it was. */
  function LinkedBut(hash: Hash, s: Sources, todo: set<Key>, now: int): Sources {
    map k | k in s :: if k in todo then s[k] else Relinked(hash, k, s[k], now)
  }

  function IdsBut(hash: Hash, s: Sources, todo: set<Key>): set<int> {
    set k | k in s && k !in todo :: CanonicalId(hash, k, s[k])
  }

  lemma LinkedNext(hash: Hash, s: Sources, todo: set<Key>, k: Key, now: int)
    requires k in todo && todo <= s.Keys
    ensures LinkedBut(hash, s, todo - {k}, now) == LinkedBut(hash, s, todo, now)[k := Relinked(hash, k, s[k], now)]
    ensures IdsBut(hash, s, todo - {k}) == IdsBut(hash, s, todo) + {CanonicalId(hash, k, s[k])}
  {
  }

  lemma AllLinked(hash: Hash, s: Sources, now: int)
    ensures LinkedBut(hash, s, {}, now) == map k | k in s :: Relinked(hash, k, s[k], now)
    ensures IdsBut(hash, s, {}) == Links(LinkedBut(hash, s, {}, now))
  {
    var linked := LinkedBut(hash, s, {}, now);
    forall k | k in s ensures linked[k].canonicalId == Some(CanonicalId(hash, k, s[k])) {
    }
    forall id | id in IdsBut(hash, s, {}) ensures id in Links(linked) {
      var k :| k in s && CanonicalId(hash, k, s[k]) == id;
      assert linked[k].canonicalId.value == id;
    }
  }

  class Store {
    const hash: Hash
    var sources: Sources
    var canonical: Canonicals

    constructor (hash: Hash)
      ensures this.hash == hash && sources == map[] && canonical == map[]
    {
      this.hash := hash;
      sources := map[];
      canonical := map[];
    }

    /** `SELECT ... WHERE canonical_asset_id = ?` in whatever order the table yields. */
    method ReadGroup(id: int) returns (rows: seq<Key>)
      ensures forall k :: k in rows <==> k in Group(sources, id)
      ensures |rows| == |Group(sources, id)|
      ensures forall i, j | 0 <= i < j < |rows| :: rows[i] != rows[j]
    {
      rows := [];
      var todo := Group(sources, id);
      while todo != {}
        invariant todo <= Group(sources, id)
        invariant forall k :: k in rows <==> k in Group(sources, id) && k !in todo
        invariant |rows| + |todo| == |Group(sources, id)|
        invariant forall i, j | 0 <= i < j < |rows| :: rows[i] != rows[j]
        decreases todo
      {
        var k :| k in todo;
        rows := rows + [k];
        todo := todo - {k};
      }
    }

    /** Rebuild one canonical row from its sources, or delete it when none is left. */
    method RebuildCanonicalId(id: int, now: int)
      modifies `canonical
      ensures canonical == RebuiltIds(sources, old(canonical), {id}, now)
    {
      RebuiltOne(sources, canonical, id, now);
      var rows := ReadGroup(id);
      if |rows| == 0 {
        assert Group(sources, id) == {};
        canonical := canonical - {id};
        return;
      }
      ghost var keys := Group(sources, id);
      var sorted := SortSources(sources, rows);
      HeadIsPrimary(sources, sorted, keys);
      var primary := sources[sorted[0]];
      var identity := ContentIdentity(primary);
      var duration := PickDuration(sources, sorted, keys);
      var firstSeen, favorite := ScanGroup(sources, sorted, keys);
      var row := CanonicalRow(
        identity.0, identity.1, primary.media, primary.filename, primary.capturedAt, Stored(duration),
        primary.visibility, sorted[0], |sorted|, |sorted| - 1, favorite, primary.place, primary.description,
        firstSeen, now);
      assert row == Aggregate(sources, keys, now);
      canonical := canonical[id := Upserted(canonical, id, row)];
    }

    method RebuildCanonicalIds(ids: set<int>, now: int)
      modifies `canonical
      ensures canonical == RebuiltIds(sources, old(canonical), ids, now)
    {
      ghost var base := canonical;
      ghost var done: set<int> := {};
      var todo := ids;
      assert RebuiltIds(sources, base, {}, now) == base;
      while todo != {}
        invariant done + todo == ids && done !! todo
        invariant canonical == RebuiltIds(sources, base, done, now)
        decreases todo
      {
        HasElement(todo);
        var id :| id in todo;
        RebuiltOneMore(sources, base, done, id, now);
        RebuildCanonicalId(id, now);
        done := done + {id};
        todo := todo - {id};
      }
      assert done == ids;
    }

    /** The local refresh of one source row. */
    method RefreshAsset(k: Key, now: int)
      modifies `sources, `canonical
      ensures (sources, canonical) == Refresh(hash, old(sources), old(canonical), k, now)
    {
      if k !in sources {
        return;
      }
      var row := sources[k];
      var ids := if row.canonicalId.Some? then {row.canonicalId.value} else {};
      var id := CanonicalId(hash, k, row);
      ids := ids + {id};
      if row.canonicalId != Some(id) {
        sources := sources[k := row.(canonicalId := Some(id), updatedAt := now)];
      }
      assert sources == old(sources)[k := Relinked(hash, k, row, now)];
      assert ids == RefreshIds(hash, old(sources), k);
      RebuildCanonicalIds(ids, now);
    }

    /** The full rebuild. */
    method RebuildAll(now: int)
      modifies `sources, `canonical
      ensures (sources, canonical) == Rebuild(hash, old(sources), now)
    {
      var ids := RelinkAll(now);
      canonical := map[];
      RebuildCanonicalIds(ids, now);
    }

    /** Link every row to its canonical ID and collect the IDs. */
    method RelinkAll(now: int) returns (ids: set<int>)
      modifies `sources
      ensures sources == map k | k in old(sources) :: Relinked(hash, k, old(sources)[k], now)
      ensures ids == Links(sources)
    {
      ghost var base := sources;
      ids := {};
      var todo := sources.Keys;
      while todo != {}
        invariant todo <= base.Keys
        invariant sources == LinkedBut(hash, base, todo, now)
        invariant ids == IdsBut(hash, base, todo)
        decreases todo
      {
        var k :| k in todo;
        var id := CanonicalId(hash, k, sources[k]);
        LinkedNext(hash, base, todo, k, now);
        ids := ids + {id};
        if sources[k].canonicalId != Some(id) {
          sources := sources[k := sources[k].(canonicalId := Some(id), updatedAt := now)];
        } else {
          assert sources[k := sources[k]] == sources;
        }
        todo := todo - {k};
      }
      AllLinked(hash, base, now);
    }
  }
}
