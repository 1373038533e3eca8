/**
 Canonical deduplication: source rows with one content identity form one canonical asset.
 The local refresh of changed rows is proved equal to the full rebuild.

 The canonical ID is a hash of the identity. Nothing here needs the hash to be injective,
 so the results hold for whatever grouping a given hash induces.
 */
module CanonicalAssets {
  import opened Wrappers
  import opened GalleryRows
  import opened CatalogTables
  import opened Text

  datatype Identity = Content(media: Media, sha1: nat, size: int) | Source(key: Key)

  type Hash = Identity -> int

  type Sources = map<Key, SourceRow>

  type Canonicals = map<int, CanonicalRow>

  predicate Usable(sha1: Option<ShaText>, size: Option<int>) {
    sha1.Some? && sha1.value.normal > 0 && size.Some? && size.value > 0
  }

  /** A mapped identity wins; otherwise only a true content SHA-1 identifies the content. */
  function ContentIdentity(row: SourceRow): (Option<ShaText>, Option<int>) {
    if Usable(row.canonicalSha1, row.canonicalSize) then (row.canonicalSha1, row.canonicalSize)
    else if row.algorithm == Sha1 then (row.sha1, row.size)
    else (None, None)
  }

  function IdentityOf(k: Key, row: SourceRow): Identity {
    var (sha1, size) := ContentIdentity(row);
    if Usable(sha1, size) then Content(row.media, sha1.value.normal, size.value) else Source(k)
  }

  function CanonicalId(hash: Hash, k: Key, row: SourceRow): int {
    hash(IdentityOf(k, row))
  }

  /** The source rows linked to a canonical ID. */
  function Group(s: Sources, id: int): set<Key> {
    set k | k in s && s[k].canonicalId == Some(id)
  }

  function Links(s: Sources): set<int> {
    set k | k in s && s[k].canonicalId.Some? :: s[k].canonicalId.value
  }

  // --------------------------------------------------------------- ranking and aggregate

  function VisibilityRank(v: Visibility): nat {
    match v
    case Active => 0
    case PermissionBlocked => 1
    case OutOfScope => 2
    case Missing => 3
  }

  function PreferenceRank(kind: Kind): nat {
    match kind
    case LocalFilesystem => 0
    case Immich => 1
    case OtherKind => 2
  }

  /** The order the sources of a group are sorted in; the first one is the primary. */
  predicate Precedes(s: Sources, a: Key, b: Key)
    requires a in s && b in s
  {
    var x, y := s[a], s[b];
    if VisibilityRank(x.visibility) != VisibilityRank(y.visibility) then
      VisibilityRank(x.visibility) < VisibilityRank(y.visibility)
    else if PreferenceRank(x.kind) != PreferenceRank(y.kind) then
      PreferenceRank(x.kind) < PreferenceRank(y.kind)
    else if x.capturedAt != y.capturedAt then x.capturedAt > y.capturedAt
    else if a.sourceKey != b.sourceKey then a.sourceKey < b.sourceKey
    else a.assetId < b.assetId
  }

  predicate IsPrimary(s: Sources, keys: set<Key>, p: Key)
    requires keys <= s.Keys
  {
    p in keys && forall k | k in keys && k != p :: Precedes(s, p, k)
  }

  lemma {:induction false} PrimaryExists(s: Sources, keys: set<Key>)
    requires keys <= s.Keys && keys != {}
    ensures exists p :: IsPrimary(s, keys, p)
  {
    var x :| x in keys;
    var rest := keys - {x};
    assert forall k | k in keys && k != x :: k in rest;
    if rest == {} {
      assert IsPrimary(s, keys, x);
    } else {
      PrimaryExists(s, rest);
      var p :| IsPrimary(s, rest, p);
      assert IsPrimary(s, keys, if Precedes(s, p, x) then p else x);
    }
  }

  ghost function Primary(s: Sources, keys: set<Key>): (p: Key)
    requires keys <= s.Keys && keys != {}
    ensures IsPrimary(s, keys, p)
  {
    PrimaryExists(s, keys);
    var p :| IsPrimary(s, keys, p);
    p
  }

  predicate Blank(text: Option<string>) {
    text.None? || Trim(text.value) == ""
  }

  /** NULL for a blank column value, trimmed text otherwise. */
  function Stored(text: Option<string>): Option<string> {
    if Blank(text) then None else Some(Trim(text.value))
  }

  /** The active sources that know a duration. */
  function WithDuration(s: Sources, keys: set<Key>): set<Key>
    requires keys <= s.Keys
  {
    set k | k in keys && s[k].visibility == Active && !Blank(s[k].duration)
  }

  /** The primary's duration, or else that of the best active source that knows one. */
  ghost function DurationOf(s: Sources, keys: set<Key>): Option<string>
    requires keys <= s.Keys && keys != {}
  {
    var own := s[Primary(s, keys)].duration;
    if !Blank(own) || WithDuration(s, keys) == {} then own
    else s[Primary(s, WithDuration(s, keys))].duration
  }

  ghost predicate IsFirstSeen(s: Sources, keys: set<Key>, t: int)
    requires keys <= s.Keys
  {
    (exists k :: k in keys && s[k].firstSeenAt == t) && forall k | k in keys :: t <= s[k].firstSeenAt
  }

  lemma {:induction false} FirstSeenExists(s: Sources, keys: set<Key>)
    requires keys <= s.Keys && keys != {}
    ensures exists t :: IsFirstSeen(s, keys, t)
  {
    var x :| x in keys;
    var rest := keys - {x};
    assert forall k | k in keys && k != x :: k in rest;
    if rest == {} {
      assert IsFirstSeen(s, keys, s[x].firstSeenAt);
    } else {
      FirstSeenExists(s, rest);
      var t :| IsFirstSeen(s, rest, t);
      assert IsFirstSeen(s, keys, if t < s[x].firstSeenAt then t else s[x].firstSeenAt);
    }
  }

  ghost function FirstSeen(s: Sources, keys: set<Key>): (t: int)
    requires keys <= s.Keys && keys != {}
    ensures IsFirstSeen(s, keys, t)
  {
    FirstSeenExists(s, keys);
    var t :| IsFirstSeen(s, keys, t);
    t
  }

  /** The canonical row of a group, as a function of the group alone. */
  ghost function Aggregate(s: Sources, keys: set<Key>, now: int): CanonicalRow
    requires keys <= s.Keys && keys != {}
  {
    var key := Primary(s, keys);
    var p := s[key];
    CanonicalRow(
      ContentIdentity(p).0, ContentIdentity(p).1, p.media, p.filename, p.capturedAt,
      Stored(DurationOf(s, keys)), p.visibility, key, |keys|, |keys| - 1,
      exists k :: k in keys && s[k].favorite,
      p.place, p.description, FirstSeen(s, keys), now)
  }

  // ------------------------------------------------------------------- the operations

  /** A link update also stamps the row. */
  function Relinked(hash: Hash, k: Key, row: SourceRow, now: int): SourceRow {
    var id := CanonicalId(hash, k, row);
    if row.canonicalId == Some(id) then row else row.(canonicalId := Some(id), updatedAt := now)
  }

  /** Insert, or update everything but `first_seen_at` on conflict. */
  function Upserted(c: Canonicals, id: int, row: CanonicalRow): CanonicalRow {
    if id in c then row.(firstSeenAt := c[id].firstSeenAt) else row
  }

  /** Rebuild the canonical rows of some IDs; an ID without sources loses its row. */
  ghost function RebuiltIds(s: Sources, c: Canonicals, ids: set<int>, now: int): Canonicals {
    c - ids + map id | id in ids && Group(s, id) != {} :: Upserted(c, id, Aggregate(s, Group(s, id), now))
  }

  /** The full rebuild: relink every row, clear the canonical table, rebuild every ID. */
  ghost function Rebuild(hash: Hash, s: Sources, now: int): (Sources, Canonicals) {
    var linked := map k | k in s :: Relinked(hash, k, s[k], now);
    (linked, RebuiltIds(linked, map[], Links(linked), now))
  }

  /** The IDs a refresh of one source row rebuilds: its new identity's and its old link. */
  function RefreshIds(hash: Hash, s: Sources, k: Key): set<int>
    requires k in s
  {
    {CanonicalId(hash, k, s[k])} + if s[k].canonicalId.Some? then {s[k].canonicalId.value} else {}
  }

  /** The local refresh of one source row: its old and its new group. */
  ghost function Refresh(hash: Hash, s: Sources, c: Canonicals, k: Key, now: int): (Sources, Canonicals) {
    if k !in s then (s, c)
    else
      var linked := s[k := Relinked(hash, k, s[k], now)];
      (linked, RebuiltIds(linked, c, RefreshIds(hash, s, k), now))
  }

  /** The rebuilt table, ID by ID. */
  ghost function RebuiltAt(s: Sources, c: Canonicals, ids: set<int>, id: int, now: int): Option<CanonicalRow> {
    if id !in ids then (if id in c then Some(c[id]) else None)
    else if Group(s, id) == {} then None
    else Some(Upserted(c, id, Aggregate(s, Group(s, id), now)))
  }

  lemma RebuiltIsPointwise(s: Sources, c: Canonicals, ids: set<int>, id: int, now: int)
    ensures id in RebuiltIds(s, c, ids, now) <==> RebuiltAt(s, c, ids, id, now).Some?
    ensures id in RebuiltIds(s, c, ids, now) ==> RebuiltIds(s, c, ids, now)[id] == RebuiltAt(s, c, ids, id, now).value
  {
  }

  // ---------------------------------------------------------------------- consistency

  /** A canonical row without the two columns a refresh may leave different. */
  function Core(row: CanonicalRow): CanonicalRow {
    row.(firstSeenAt := 0, updatedAt := 0)
  }

  function Cores(c: Canonicals): Canonicals {
    map id | id in c :: Core(c[id])
  }

  predicate LinkedAt(hash: Hash, s: Sources, k: Key)
    requires k in s
  {
    s[k].canonicalId == Some(CanonicalId(hash, k, s[k]))
  }

  /** The canonical table is right about one ID. */
  ghost predicate RightAt(s: Sources, c: Canonicals, id: int) {
    && (id in c <==> Group(s, id) != {})
    && (id in c ==> Core(c[id]) == Core(Aggregate(s, Group(s, id), 0)))
  }

  /** Every row links to its identity's ID and every canonical row is its group's aggregate. */
  ghost predicate Consistent(hash: Hash, s: Sources, c: Canonicals) {
    (forall k | k in s :: LinkedAt(hash, s, k)) && (forall id :: RightAt(s, c, id))
  }

  /** Some rows changed: the IDs their old links and new identities name are not to be trusted. */
  function Touched(hash: Hash, s: Sources, pending: set<Key>): set<int> {
    (set k | k in pending && k in s :: CanonicalId(hash, k, s[k]))
    + set k | k in pending && k in s && s[k].canonicalId.Some? :: s[k].canonicalId.value
  }

  ghost predicate ConsistentBut(hash: Hash, s: Sources, c: Canonicals, pending: set<Key>) {
    && (forall k | k in s && k !in pending :: LinkedAt(hash, s, k))
    && (forall id | id !in Touched(hash, s, pending) :: RightAt(s, c, id))
  }

  lemma GroupUnchanged(s: Sources, s': Sources, id: int)
    requires forall k | k in s && s[k].canonicalId == Some(id) :: k in s' && s'[k] == s[k]
    requires forall k | k in s' && s'[k].canonicalId == Some(id) :: k in s && s'[k] == s[k]
    ensures Group(s', id) == Group(s, id)
    ensures Group(s, id) != {} ==> Core(Aggregate(s', Group(s', id), 0)) == Core(Aggregate(s, Group(s, id), 0))
  {
    assert Group(s', id) == Group(s, id);
    if Group(s, id) != {} {
      SameRowsSameAggregate(s, s', Group(s, id));
    }
  }

  lemma SamePrimary(s: Sources, s': Sources, keys: set<Key>)
    requires keys <= s.Keys && keys <= s'.Keys && keys != {} && forall k | k in keys :: s[k] == s'[k]
    ensures Primary(s', keys) == Primary(s, keys)
  {
    var p := Primary(s, keys);
    assert IsPrimary(s', keys, p);
  }

  lemma SameRowsSameAggregate(s: Sources, s': Sources, keys: set<Key>)
    requires keys <= s.Keys && keys <= s'.Keys && keys != {} && forall k | k in keys :: s[k] == s'[k]
    ensures Core(Aggregate(s', keys, 0)) == Core(Aggregate(s, keys, 0))
  {
    SamePrimary(s, s', keys);
    assert WithDuration(s', keys) == WithDuration(s, keys);
    if WithDuration(s, keys) != {} {
      SamePrimary(s, s', WithDuration(s, keys));
    }
  }

  /** Rebuilding IDs makes the table right about them and leaves the others as they were. */
  lemma RebuiltIdsAreRight(s: Sources, c: Canonicals, ids: set<int>, now: int)
    ensures forall id | id in ids :: RightAt(s, RebuiltIds(s, c, ids, now), id)
    ensures forall id | id !in ids :: id in RebuiltIds(s, c, ids, now) <==> id in c
    ensures forall id | id !in ids && id in c :: RebuiltIds(s, c, ids, now)[id] == c[id]
  {
  }

  /** Refreshing one pending row settles it and keeps everything already settled. */
  lemma RefreshSettles(hash: Hash, s: Sources, c: Canonicals, pending: set<Key>, k: Key, now: int)
    requires ConsistentBut(hash, s, c, pending)
    ensures var (s', c') := Refresh(hash, s, c, k, now);
            ConsistentBut(hash, s', c', pending - {k})
    ensures var (s', _) := Refresh(hash, s, c, k, now);
            s' == RelinkedRows(hash, s, [k], now)
  {
    var (s', c') := Refresh(hash, s, c, k, now);
    var rest := pending - {k};
    if k in s {
      var linked := s[k := Relinked(hash, k, s[k], now)];
      var ids := RefreshIds(hash, s, k);
      RebuiltIdsAreRight(linked, c, ids, now);
      assert CanonicalId(hash, k, s'[k]) == CanonicalId(hash, k, s[k]);
      forall id | id !in Touched(hash, s', rest) ensures RightAt(s', c', id) {
        if id !in ids {
          assert id !in Touched(hash, s, pending) by { UntouchedBefore(hash, s, s', pending, k, ids, id); }
          GroupUnchanged(s, s', id);
        }
      }
    } else {
      assert Touched(hash, s, rest) == Touched(hash, s, pending);
    }
  }

  lemma UntouchedBefore(hash: Hash, s: Sources, s': Sources, pending: set<Key>, k: Key, ids: set<int>, id: int)
    requires k in s && s'.Keys == s.Keys && forall j | j in s && j != k :: s'[j] == s[j]
    requires ids == RefreshIds(hash, s, k)
    requires id !in ids && id !in Touched(hash, s', pending - {k})
    ensures id !in Touched(hash, s, pending)
  {
    forall j | j in pending && j in s
      ensures CanonicalId(hash, j, s[j]) != id && s[j].canonicalId != Some(id)
    {
      if j != k {
        assert j in pending - {k};
        assert CanonicalId(hash, j, s'[j]) in Touched(hash, s', pending - {k});
        if s'[j].canonicalId.Some? { assert s'[j].canonicalId.value in Touched(hash, s', pending - {k}); }
      }
    }
  }

  /** Refresh a batch of rows, one after the other. */
  ghost function RefreshAll(hash: Hash, s: Sources, c: Canonicals, ks: seq<Key>, now: int): (Sources, Canonicals)
    decreases |ks|
  {
    if ks == [] then (s, c)
    else
      var (s', c') := Refresh(hash, s, c, ks[0], now);
      RefreshAll(hash, s', c', ks[1..], now)
  }

  /** The source table after refreshing some rows: exactly those rows are relinked. */
  function RelinkedRows(hash: Hash, s: Sources, ks: seq<Key>, now: int): Sources {
    map j | j in s :: if j in ks then Relinked(hash, j, s[j], now) else s[j]
  }

  lemma RelinkedRowsStep(hash: Hash, s: Sources, ks: seq<Key>, now: int)
    requires ks != []
    ensures RelinkedRows(hash, RelinkedRows(hash, s, [ks[0]], now), ks[1..], now) == RelinkedRows(hash, s, ks, now)
  {
    forall j | j in s ensures j in ks <==> j == ks[0] || j in ks[1..] {
      assert ks == [ks[0]] + ks[1..];
    }
  }

  lemma {:induction false} RefreshAllSettles(
      hash: Hash, s: Sources, c: Canonicals, pending: set<Key>, ks: seq<Key>, now: int)
    requires ConsistentBut(hash, s, c, pending)
    ensures var (s', c') := RefreshAll(hash, s, c, ks, now);
            ConsistentBut(hash, s', c', pending - (set k | k in ks)) && s' == RelinkedRows(hash, s, ks, now)
    decreases |ks|
  {
    if ks == [] {
      assert pending - (set k | k in ks) == pending;
      assert RelinkedRows(hash, s, ks, now) == s;
    } else {
      var (s', c') := Refresh(hash, s, c, ks[0], now);
      RefreshSettles(hash, s, c, pending, ks[0], now);
      RefreshAllSettles(hash, s', c', pending - {ks[0]}, ks[1..], now);
      RelinkedRowsStep(hash, s, ks, now);
      assert pending - {ks[0]} - (set k | k in ks[1..]) == pending - (set k | k in ks) by {
        assert ks == [ks[0]] + ks[1..];
      }
    }
  }

  /** Changed or inserted rows keep their link column, which is NULL for a new row. */
  predicate ChangedRows(before: Sources, after: Sources, changed: set<Key>) {
    && before.Keys <= after.Keys
    && (forall k | k in after && k !in changed :: k in before && after[k] == before[k])
    && (forall k | k in after && k in changed ::
          after[k].canonicalId == if k in before then before[k].canonicalId else None)
  }

  lemma ChangesLeaveTheRest(hash: Hash, before: Sources, after: Sources, c: Canonicals, changed: set<Key>)
    requires Consistent(hash, before, c) && ChangedRows(before, after, changed)
    ensures ConsistentBut(hash, after, c, changed)
  {
    forall id | id !in Touched(hash, after, changed) ensures RightAt(after, c, id) {
      forall k | k in changed && k in after ensures after[k].canonicalId != Some(id) {
        if after[k].canonicalId.Some? { assert after[k].canonicalId.value in Touched(hash, after, changed); }
      }
      assert RightAt(before, c, id);
      GroupUnchanged(before, after, id);
    }
  }

  /** Relinking all changed rows and then rebuilding every touched ID restores consistency at once. */
  lemma BatchRebuildIsConsistent(hash: Hash, s: Sources, c: Canonicals, changed: seq<Key>, now: int)
    requires ConsistentBut(hash, s, c, set k | k in changed)
    ensures var linked := RelinkedRows(hash, s, changed, now);
            Consistent(hash, linked, RebuiltIds(linked, c, Touched(hash, s, set k | k in changed), now))
  {
    var pending := set k | k in changed;
    var linked, ids := RelinkedRows(hash, s, changed, now), Touched(hash, s, set k | k in changed);
    RebuiltIdsAreRight(linked, c, ids, now);
    forall k | k in linked ensures LinkedAt(hash, linked, k) {
      assert CanonicalId(hash, k, linked[k]) == CanonicalId(hash, k, s[k]);
      if k !in pending { assert LinkedAt(hash, s, k); }
    }
    forall id ensures RightAt(linked, RebuiltIds(linked, c, ids, now), id) {
      if id !in ids {
        UntouchedStaysRight(hash, s, c, changed, id, now);
      }
    }
  }

  /** Relinking leaves the groups no changed row belongs to, before or after. */
  lemma UntouchedStaysRight(hash: Hash, s: Sources, c: Canonicals, changed: seq<Key>, id: int, now: int)
    requires RightAt(s, c, id) && id !in Touched(hash, s, set k | k in changed)
    ensures var linked := RelinkedRows(hash, s, changed, now);
            RightAt(linked, RebuiltIds(linked, c, Touched(hash, s, set k | k in changed), now), id)
  {
    var ids := Touched(hash, s, set k | k in changed);
    var linked := RelinkedRows(hash, s, changed, now);
    forall k | k in s && k in changed ensures s[k].canonicalId != Some(id) && linked[k].canonicalId != Some(id) {
      assert k in set k | k in changed;
      assert CanonicalId(hash, k, s[k]) in ids;
      if s[k].canonicalId.Some? { assert s[k].canonicalId.value in ids; }
    }
    GroupUnchanged(s, linked, id);
    RebuiltIsPointwise(linked, c, ids, id, now);
  }

  /** The full rebuild is consistent whatever the links and canonical rows were. */
  lemma RebuildIsConsistent(hash: Hash, s: Sources, now: int)
    ensures var (s', c') := Rebuild(hash, s, now); Consistent(hash, s', c')
  {
    var (s', c') := Rebuild(hash, s, now);
    forall k | k in s' ensures LinkedAt(hash, s', k) {
      assert CanonicalId(hash, k, s'[k]) == CanonicalId(hash, k, s[k]);
    }
    RebuiltIdsAreRight(s', map[], Links(s'), now);
    forall id ensures RightAt(s', c', id) {
      if id !in Links(s') {
        assert Group(s', id) == {} by {
          forall k | k in s' ensures s'[k].canonicalId != Some(id) { assert s'[k].canonicalId.value in Links(s'); }
        }
      }
    }
  }

  /** Consistent tables over the same sources agree up to the two excepted columns. */
  lemma ConsistentIsUnique(hash: Hash, s: Sources, c: Canonicals, c': Canonicals)
    requires Consistent(hash, s, c) && Consistent(hash, s, c')
    ensures Cores(c) == Cores(c')
  {
    forall id ensures id in c <==> id in c' { assert RightAt(s, c, id) && RightAt(s, c', id); }
    forall id | id in c ensures Core(c[id]) == Core(c'[id]) { assert RightAt(s, c, id) && RightAt(s, c', id); }
  }

  /**
   Incremental refresh equals full rebuild: change or insert any rows of a consistent
   catalog, refresh them in any order, and the links and canonical rows are those of a
   full rebuild.
   */
  lemma RefreshEqualsRebuild(hash: Hash, before: Sources, c: Canonicals, after: Sources, ks: seq<Key>, now: int)
    requires Consistent(hash, before, c)
    requires ChangedRows(before, after, set k | k in ks)
    ensures var (s1, c1) := RefreshAll(hash, after, c, ks, now);
            var (s2, c2) := Rebuild(hash, after, now);
            s1 == s2 && Cores(c1) == Cores(c2) && Consistent(hash, s1, c1)
  {
    RefreshesLeaveConsistent(hash, before, c, after, ks, now);
    RelinkedIsRebuilt(hash, before, c, after, ks, now);
    RebuildIsConsistent(hash, after, now);
    ConsistentIsUnique(hash, Rebuild(hash, after, now).0, RefreshAll(hash, after, c, ks, now).1,
        Rebuild(hash, after, now).1);
  }

  lemma RefreshesLeaveConsistent(hash: Hash, before: Sources, c: Canonicals, after: Sources, ks: seq<Key>, now: int)
    requires Consistent(hash, before, c)
    requires ChangedRows(before, after, set k | k in ks)
    ensures var (s1, c1) := RefreshAll(hash, after, c, ks, now);
            Consistent(hash, s1, c1) && s1 == RelinkedRows(hash, after, ks, now)
  {
    var changed := set k | k in ks;
    ChangesLeaveTheRest(hash, before, after, c, changed);
    RefreshAllSettles(hash, after, c, changed, ks, now);
    var (s1, c1) := RefreshAll(hash, after, c, ks, now);
    assert changed - changed == {};
    assert Touched(hash, s1, {}) == {};
  }

  /** Rows that are not refreshed were linked right already. */
  lemma RelinkedIsRebuilt(hash: Hash, before: Sources, c: Canonicals, after: Sources, ks: seq<Key>, now: int)
    requires Consistent(hash, before, c)
    requires ChangedRows(before, after, set k | k in ks)
    ensures RelinkedRows(hash, after, ks, now) == Rebuild(hash, after, now).0
  {
    forall k | k in after && k !in ks ensures Relinked(hash, k, after[k], now) == after[k] {
      assert LinkedAt(hash, before, k);
    }
  }

  // -------------------------------------------------------- what a catalog says, spelled out

  /** A row borrows an identity when both columns are usable; otherwise only its own content SHA-1 counts. */
  predicate HasContent(row: SourceRow, media: Media, sha1: nat, size: int) {
    && row.media == media && sha1 > 0 && size > 0
    && if row.canonicalSha1.Some? && row.canonicalSha1.value.normal > 0
          && row.canonicalSize.Some? && row.canonicalSize.value > 0
       then row.canonicalSha1.value.normal == sha1 && row.canonicalSize == Some(size)
       else row.algorithm == Sha1 && row.sha1.Some? && row.sha1.value.normal == sha1 && row.size == Some(size)
  }

  ghost predicate SharesContent(a: SourceRow, b: SourceRow) {
    exists media, sha1: nat, size :: HasContent(a, media, sha1, size) && HasContent(b, media, sha1, size)
  }

  lemma ContentIsIdentity(k: Key, row: SourceRow, media: Media, sha1: nat, size: int)
    ensures HasContent(row, media, sha1, size) <==> IdentityOf(k, row) == Content(media, sha1, size)
  {
  }

  /** In a consistent catalog rows of one content are one canonical asset; without collisions no others are. */
  lemma OneAssetIffSameContent(hash: Hash, s: Sources, c: Canonicals, k: Key, k': Key)
    requires Consistent(hash, s, c) && k in s && k' in s && k != k'
    ensures SharesContent(s[k], s[k']) ==> s[k].canonicalId == s[k'].canonicalId != None
    ensures (forall a, b | hash(a) == hash(b) :: a == b) ==>
              (s[k].canonicalId == s[k'].canonicalId ==> SharesContent(s[k], s[k']))
  {
    assert LinkedAt(hash, s, k) && LinkedAt(hash, s, k');
    if SharesContent(s[k], s[k']) {
      var media, sha1: nat, size :| HasContent(s[k], media, sha1, size) && HasContent(s[k'], media, sha1, size);
      ContentIsIdentity(k, s[k], media, sha1, size);
      ContentIsIdentity(k', s[k'], media, sha1, size);
    } else if IdentityOf(k, s[k]) == IdentityOf(k', s[k']) {
      match IdentityOf(k, s[k])
      case Source(_) => assert false;
      case Content(media, sha1, size) =>
        ContentIsIdentity(k, s[k], media, sha1, size);
        ContentIsIdentity(k', s[k'], media, sha1, size);
        assert false;
    }
  }

  /** Visible copies first, then Local before Immich before others, then the latest capture, then the lowest key. */
  predicate StandsBefore(a: Key, x: SourceRow, b: Key, y: SourceRow) {
    if x.visibility != y.visibility then
      match x.visibility
      case Active => true
      case PermissionBlocked => y.visibility != Active
      case OutOfScope => y.visibility == Missing
      case Missing => false
    else if x.kind != y.kind then x.kind == LocalFilesystem || (x.kind == Immich && y.kind == OtherKind)
    else if x.capturedAt != y.capturedAt then y.capturedAt < x.capturedAt
    else a.sourceKey < b.sourceKey || (a.sourceKey == b.sourceKey && a.assetId < b.assetId)
  }

  /** The stored duration is text; it is the primary's, or else that of the first active source that knows one. */
  ghost predicate TellsDuration(s: Sources, keys: set<Key>, primary: Key, duration: Option<string>)
    requires keys <= s.Keys && primary in keys
  {
    if Knows(s[primary]) then duration == Some(Trim(s[primary].duration.value))
    else if forall k | k in keys && s[k].visibility == Active :: !Knows(s[k]) then duration == None
    else exists k :: k in keys && s[k].visibility == Active && Knows(s[k])
           && (forall j | j in keys && j != k && s[j].visibility == Active && Knows(s[j]) ::
                 StandsBefore(k, s[k], j, s[j]))
           && duration == Some(Trim(s[k].duration.value))
  }

  predicate Knows(row: SourceRow) {
    row.duration.Some? && Trim(row.duration.value) != ""
  }

  /** Each canonical row shows its first source and counts all of them. */
  lemma CanonicalRowMeaning(hash: Hash, s: Sources, c: Canonicals, id: int)
    requires Consistent(hash, s, c) && id in c
    ensures var row, keys := c[id], set k | k in s && s[k].canonicalId == Some(id);
            && row.primary in keys
            && (forall k | k in keys && k != row.primary :: StandsBefore(row.primary, s[row.primary], k, s[k]))
            && var first := s[row.primary];
               && row.media == first.media && row.filename == first.filename && row.capturedAt == first.capturedAt
               && row.visibility == first.visibility && row.place == first.place
               && row.description == first.description
               && row.sourceCount == |keys| && row.duplicateCount == |keys| - 1
               && (row.favorite <==> exists k :: k in keys && s[k].favorite)
               && TellsDuration(s, keys, row.primary, row.duration)
    ensures forall media, sha1: nat, size | HasContent(s[c[id].primary], media, sha1, size) ::
              c[id].media == media && c[id].size == Some(size) && c[id].sha1.Some? && c[id].sha1.value.normal == sha1
  {
    assert RightAt(s, c, id);
    var keys := set k | k in s && s[k].canonicalId == Some(id);
    assert keys == Group(s, id);
    var p := Primary(s, keys);
    assert Core(c[id]) == Core(Aggregate(s, keys, 0));
    forall k | k in keys && k != p ensures StandsBefore(p, s[p], k, s[k]) {
      assert Precedes(s, p, k);
      PrecedesIsStandsBefore(s, p, k);
    }
    DurationIsTold(s, keys);
  }

  lemma PrecedesIsStandsBefore(s: Sources, a: Key, b: Key)
    requires a in s && b in s
    ensures Precedes(s, a, b) <==> StandsBefore(a, s[a], b, s[b])
  {
  }

  lemma DurationIsTold(s: Sources, keys: set<Key>)
    requires keys <= s.Keys && keys != {}
    ensures TellsDuration(s, keys, Primary(s, keys), Stored(DurationOf(s, keys)))
  {
    var p, knowing := Primary(s, keys), WithDuration(s, keys);
    if !Knows(s[p]) && knowing != {} {
      var k := Primary(s, knowing);
      forall j | j in keys && j != k && s[j].visibility == Active && Knows(s[j])
        ensures StandsBefore(k, s[k], j, s[j])
      {
        assert j in knowing && Precedes(s, k, j);
        PrecedesIsStandsBefore(s, k, j);
      }
      assert k in knowing && k in keys && Knows(s[k]);
      assert Stored(DurationOf(s, keys)) == Some(Trim(s[k].duration.value));
    } else if !Knows(s[p]) {
      forall k | k in keys && s[k].visibility == Active ensures !Knows(s[k]) {
        assert k !in knowing;
      }
    }
  }
}
