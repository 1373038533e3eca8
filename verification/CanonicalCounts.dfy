/**
 Counts over the canonical tables: what deduplication conserves, the shortcut total of the
 gallery, and when a refresh leaves `first_seen_at` as a rebuild would.
 */
module CanonicalCounts {
  import opened Wrappers
  import opened GalleryRows
  import opened CatalogTables
  import opened CanonicalAssets
  import opened GalleryView
  import opened IntegerSets

  // ---------------------------------------------------------- deduplication status

  datatype DeduplicationStatus = DeduplicationStatus(
    sourceRows: nat,
    canonicalAssets: nat,
    activeAssets: nat,
    duplicateSourceRows: nat,
    unlinkedSourceRows: nat,
    orphanCanonicalRows: nat
  ) {
    predicate NeedsRepair() {
      unlinkedSourceRows > 0 || orphanCanonicalRows > 0
    }
  }

  /** `SUM(duplicate_source_count)` over some canonical rows. */
  function SumDuplicates(c: Canonicals, ids: set<int>): nat
    requires ids <= c.Keys
    decreases ids
  {
    if ids == {} then 0
    else
      var m := MaxOf(ids);
      c[m].duplicateCount + SumDuplicates(c, ids - {m})
  }

  function Status(s: Sources, c: Canonicals): DeduplicationStatus {
    DeduplicationStatus(
      |s|,
      |c|,
      |set id | id in c && c[id].visibility == Active|,
      SumDuplicates(c, c.Keys),
      |set k | k in s && (s[k].canonicalId.None? || s[k].canonicalId.value !in c)|,
      |set id | id in c && id !in Links(s)|)
  }

  function LinkedTo(s: Sources, ids: set<int>): set<Key> {
    set k | k in s && s[k].canonicalId.Some? && s[k].canonicalId.value in ids
  }

  /** The rows linked to some IDs number those IDs plus their duplicates. */
  lemma {:induction false} LinkedRowsAreCounted(hash: Hash, s: Sources, c: Canonicals, ids: set<int>)
    requires Consistent(hash, s, c) && ids <= c.Keys
    ensures |LinkedTo(s, ids)| == |ids| + SumDuplicates(c, ids)
    decreases ids
  {
    if ids == {} {
      assert LinkedTo(s, ids) == {};
    } else {
      var m := MaxOf(ids);
      LinkedRowsAreCounted(hash, s, c, ids - {m});
      assert LinkedTo(s, ids) == LinkedTo(s, ids - {m}) + Group(s, m);
      assert LinkedTo(s, ids - {m}) !! Group(s, m);
      assert RightAt(s, c, m);
      assert Core(c[m]).duplicateCount == |Group(s, m)| - 1;
    }
  }

  /**
   In a consistent catalog every source row is either the one its canonical asset stands
   for or a counted duplicate, and nothing needs repair.
   */
  lemma DeduplicationConserves(hash: Hash, s: Sources, c: Canonicals)
    requires Consistent(hash, s, c)
    ensures var status := Status(s, c);
            && status.sourceRows == status.canonicalAssets + status.duplicateSourceRows
            && !status.NeedsRepair()
  {
    forall k | k in s ensures s[k].canonicalId.Some? && s[k].canonicalId.value in c {
      assert LinkedAt(hash, s, k);
      var id := s[k].canonicalId.value;
      assert RightAt(s, c, id);
      assert k in Group(s, id);
    }
    forall id | id in c ensures id in Links(s) {
      assert RightAt(s, c, id);
      var k :| k in Group(s, id);
    }
    LinkedRowsAreCounted(hash, s, c, c.Keys);
    assert LinkedTo(s, c.Keys) == s.Keys;
    assert (set k | k in s && (s[k].canonicalId.None? || s[k].canonicalId.value !in c)) == {};
    assert (set id | id in c && id !in Links(s)) == {};
  }

  /** The active assets are those with an active source row. */
  lemma ActiveAssetsAreCounted(hash: Hash, s: Sources, c: Canonicals)
    requires Consistent(hash, s, c)
    ensures Status(s, c).activeAssets
            == |set k | k in s && s[k].visibility == Active && s[k].canonicalId.Some? :: s[k].canonicalId.value|
  {
    var active := set id | id in c && c[id].visibility == Active;
    var linked := set k | k in s && s[k].visibility == Active && s[k].canonicalId.Some? :: s[k].canonicalId.value;
    assert Status(s, c).activeAssets == |active|;
    forall id ensures id in active <==> id in linked {
      assert RightAt(s, c, id);
      if id in active {
        ActiveIffSomeSourceIs(hash, s, c, id);
        var k :| k in Group(s, id) && s[k].visibility == Active;
        assert s[k].canonicalId.value == id;
      }
      if id in linked {
        var k :| k in s && s[k].visibility == Active && s[k].canonicalId == Some(id);
        assert k in Group(s, id);
        ActiveIffSomeSourceIs(hash, s, c, id);
      }
    }
    assert active == linked;
  }

  /** A repair is due exactly when some source row has no canonical row, or some canonical row no source. */
  lemma RepairIsDueIff(s: Sources, c: Canonicals)
    ensures Status(s, c).NeedsRepair()
            <==> !((forall k | k in s :: s[k].canonicalId.Some? && s[k].canonicalId.value in c)
                   && forall id | id in c :: exists k :: k in s && s[k].canonicalId == Some(id))
  {
    NothingUnlinkedIff(s, c);
    NoOrphansIff(s, c);
  }

  lemma NothingUnlinkedIff(s: Sources, c: Canonicals)
    ensures Status(s, c).unlinkedSourceRows == 0
            <==> forall k | k in s :: s[k].canonicalId.Some? && s[k].canonicalId.value in c
  {
    var unlinked := set k | k in s && (s[k].canonicalId.None? || s[k].canonicalId.value !in c);
    assert Status(s, c).unlinkedSourceRows == |unlinked|;
    if unlinked == {} {
      forall k | k in s ensures s[k].canonicalId.Some? && s[k].canonicalId.value in c {
        assert k !in unlinked;
      }
    } else {
      var k :| k in unlinked;
      assert !(s[k].canonicalId.Some? && s[k].canonicalId.value in c);
    }
  }

  lemma NoOrphansIff(s: Sources, c: Canonicals)
    ensures Status(s, c).orphanCanonicalRows == 0
            <==> forall id | id in c :: exists k :: k in s && s[k].canonicalId == Some(id)
  {
    var orphans := set id | id in c && id !in Links(s);
    forall id ensures id in Links(s) <==> exists k :: k in s && s[k].canonicalId == Some(id) {
    }
    assert Status(s, c).orphanCanonicalRows == |orphans|;
    if orphans == {} {
      forall id | id in c ensures id in Links(s) {
        assert id !in orphans;
      }
    } else {
      HasElement(orphans);
      var id :| id in orphans;
      assert id in c && !(exists k :: k in s && s[k].canonicalId == Some(id));
    }
  }

  // ------------------------------------------------------------------ shortcut total

  predicate ActiveConfigured(s: Sources, sourceKeys: set<int>, k: Key)
    requires k in s
  {
    k.sourceKey in sourceKeys && s[k].kind == Immich && s[k].visibility == Active
  }

  predicate HasActiveConfigured(s: Sources, sourceKeys: set<int>, id: int) {
    exists k | k in Group(s, id) :: ActiveConfigured(s, sourceKeys, k)
  }

  /** `COUNT(DISTINCT canonical_asset_id)` over the active configured Immich sources. */
  function ShortcutTotal(s: Sources, sourceKeys: set<int>): nat {
    |set k | k in s && ActiveConfigured(s, sourceKeys, k) && s[k].canonicalId.Some? :: s[k].canonicalId.value|
  }

  /** `COUNT(*)` of the active canonical assets with an active configured Immich source. */
  function GeneralTotal(s: Sources, c: Canonicals, sourceKeys: set<int>): nat {
    |set id | id in c && c[id].visibility == Active && HasActiveConfigured(s, sourceKeys, id)|
  }

  /** A canonical asset is active exactly when one of its sources is. */
  lemma ActiveIffSomeSourceIs(hash: Hash, s: Sources, c: Canonicals, id: int)
    requires Consistent(hash, s, c) && id in c
    ensures c[id].visibility == Active <==> exists k :: k in Group(s, id) && s[k].visibility == Active
  {
    assert RightAt(s, c, id);
    var p := Primary(s, Group(s, id));
    assert Core(c[id]).visibility == s[p].visibility;
    if k :| k in Group(s, id) && s[k].visibility == Active {
      assert k == p || Precedes(s, p, k);
    }
  }

  lemma ShortcutIsGeneralTotal(hash: Hash, s: Sources, c: Canonicals, sourceKeys: set<int>)
    requires Consistent(hash, s, c)
    ensures ShortcutTotal(s, sourceKeys) == GeneralTotal(s, c, sourceKeys)
  {
    var a := set k | k in s && ActiveConfigured(s, sourceKeys, k) && s[k].canonicalId.Some? :: s[k].canonicalId.value;
    var b := set id | id in c && c[id].visibility == Active && HasActiveConfigured(s, sourceKeys, id);
    forall id ensures id in a <==> id in b {
      assert RightAt(s, c, id);
      if id in a {
        var k :| k in s && ActiveConfigured(s, sourceKeys, k) && s[k].canonicalId == Some(id);
        assert k in Group(s, id);
        ActiveIffSomeSourceIs(hash, s, c, id);
      }
    }
    assert a == b;
  }

  /**
   Over a consistent catalog the shortcut is the number of rows the general query has when
   only these Immich sources are configured.
   */
  lemma ShortcutCountsTheView(hash: Hash, t: Tables, keys: set<int>)
    requires Consistent(hash, t.sources, t.canonical)
    ensures ShortcutTotal(t.sources, keys) == |View(t, Roles({}, keys, {}))|
  {
    var roles := Roles({}, keys, {});
    var counted := set k | k in t.sources && ActiveConfigured(t.sources, keys, k) && t.sources[k].canonicalId.Some? ::
                     t.sources[k].canonicalId.value;
    forall id ensures id in counted <==> id in View(t, roles) {
      CountedIffShown(hash, t, keys, id);
    }
    assert counted == View(t, roles).Keys;
  }

  lemma CountedIffShown(hash: Hash, t: Tables, keys: set<int>, id: int)
    requires Consistent(hash, t.sources, t.canonical)
    ensures id in View(t, Roles({}, keys, {}))
            <==> exists k :: k in t.sources && ActiveConfigured(t.sources, keys, k)
                             && t.sources[k].canonicalId == Some(id)
  {
    var roles := Roles({}, keys, {});
    forall k ensures k in Candidates(t, roles, id)
                     <==> k in t.sources && ActiveConfigured(t.sources, keys, k)
                          && t.sources[k].canonicalId == Some(id)
    {
    }
    if Candidates(t, roles, id) != {} {
      var k := Selected(t, roles, id).value;
      assert k in Group(t.sources, id);
      assert RightAt(t.sources, t.canonical, id);
      ActiveIffSomeSourceIs(hash, t.sources, t.canonical, id);
    }
  }

  // ------------------------------------------------------------------- first seen

  ghost predicate FirstSeenExactAt(s: Sources, c: Canonicals, id: int) {
    id in c ==> Group(s, id) != {} && c[id].firstSeenAt == FirstSeen(s, Group(s, id))
  }

  /** Every canonical row has the earliest first-seen time of its sources. */
  ghost predicate FirstSeenExact(s: Sources, c: Canonicals) {
    forall id :: FirstSeenExactAt(s, c, id)
  }

  /** One row is changed or inserted; an existing row keeps its first-seen time and its link. */
  predicate OneRowChanged(before: Sources, k: Key, row: SourceRow) {
    if k in before
    then row.canonicalId == before[k].canonicalId && row.firstSeenAt == before[k].firstSeenAt
    else row.canonicalId == None
  }

  /** The row joins no group that was first seen later than the row. */
  predicate JoinKeeps(hash: Hash, c: Canonicals, k: Key, row: SourceRow) {
    var id := CanonicalId(hash, k, row);
    id in c && row.canonicalId != Some(id) ==> c[id].firstSeenAt <= row.firstSeenAt
  }

  /** The row leaves no group whose other sources were all first seen later. */
  predicate LeaveKeeps(hash: Hash, s: Sources, c: Canonicals, k: Key, row: SourceRow) {
    var old_ := row.canonicalId;
    old_.Some? && old_.value in c && old_ != Some(CanonicalId(hash, k, row)) && Group(s, old_.value) - {k} != {} ==>
      exists j | j in Group(s, old_.value) :: j != k && s[j].firstSeenAt == c[old_.value].firstSeenAt
  }

  lemma FirstSeenIs(s: Sources, keys: set<Key>, t: int)
    requires keys <= s.Keys && IsFirstSeen(s, keys, t)
    ensures keys != {} && FirstSeen(s, keys) == t
  {
  }

  /** The sources after changing one row and refreshing it. */
  function Moved(hash: Hash, before: Sources, k: Key, row: SourceRow, now: int): Sources {
    before[k := Relinked(hash, k, row, now)]
  }

  lemma MovedGroup(hash: Hash, before: Sources, k: Key, row: SourceRow, now: int, id: int)
    ensures Group(Moved(hash, before, k, row, now), id)
         == if id == CanonicalId(hash, k, row) then Group(before, id) + {k} else Group(before, id) - {k}
  {
  }

  /** What a refresh leaves as the first-seen time of one ID. */
  lemma RefreshAt(hash: Hash, before: Sources, c: Canonicals, k: Key, row: SourceRow, now: int, id: int)
    ensures var s' := Moved(hash, before, k, row, now);
            var c' := Refresh(hash, before[k := row], c, k, now).1;
            var touched := id == CanonicalId(hash, k, row) || row.canonicalId == Some(id);
            && Refresh(hash, before[k := row], c, k, now).0 == s'
            && (id in c' <==> if touched then Group(s', id) != {} else id in c)
            && (id in c' ==> (id in c ==> c'[id].firstSeenAt == c[id].firstSeenAt))
            && (id in c' ==> (id !in c ==> Group(s', id) != {} && c'[id].firstSeenAt == FirstSeen(s', Group(s', id))))
  {
    RefreshIsRebuilt(hash, before, c, k, row, now);
    RebuiltFirstSeen(Moved(hash, before, k, row, now), c, RefreshIds(hash, before[k := row], k), id, now);
  }

  lemma RefreshIsRebuilt(hash: Hash, before: Sources, c: Canonicals, k: Key, row: SourceRow, now: int)
    ensures var s', ids := Moved(hash, before, k, row, now), RefreshIds(hash, before[k := row], k);
            Refresh(hash, before[k := row], c, k, now) == (s', RebuiltIds(s', c, ids, now))
    ensures forall id :: id in RefreshIds(hash, before[k := row], k)
                         <==> id == CanonicalId(hash, k, row) || row.canonicalId == Some(id)
  {
    assert before[k := row][k := Relinked(hash, k, row, now)] == Moved(hash, before, k, row, now);
  }

  /** What rebuilding some IDs leaves as the first-seen time of one ID. */
  lemma RebuiltFirstSeen(s: Sources, c: Canonicals, ids: set<int>, id: int, now: int)
    ensures var c' := RebuiltIds(s, c, ids, now);
            && (id in c' <==> if id in ids then Group(s, id) != {} else id in c)
            && (id in c' ==> (id in c ==> c'[id].firstSeenAt == c[id].firstSeenAt))
            && (id in c' ==> (id !in c ==> Group(s, id) != {} && c'[id].firstSeenAt == FirstSeen(s, Group(s, id))))
  {
    RebuiltIsPointwise(s, c, ids, id, now);
  }

  /** Adding a row to a group keeps its earliest time exactly when the row is not earlier. */
  lemma JoinFirstSeen(before: Sources, keys: set<Key>, k: Key, after: Sources)
    requires keys != {} && keys <= before.Keys && keys + {k} <= after.Keys
    requires forall j | j in keys && j != k :: after[j] == before[j]
    requires k in keys ==> after[k].firstSeenAt == before[k].firstSeenAt
    ensures FirstSeen(after, keys + {k}) == FirstSeen(before, keys) <==> FirstSeen(before, keys) <= after[k].firstSeenAt
  {
    var t := FirstSeen(before, keys);
    if t <= after[k].firstSeenAt {
      var j :| j in keys && before[j].firstSeenAt == t;
      assert j in keys + {k} && after[j].firstSeenAt == t;
      FirstSeenIs(after, keys + {k}, t);
    } else {
      assert k in keys + {k};
    }
  }

  /** Removing a row keeps the earliest time exactly when another row has it. */
  lemma LeaveFirstSeen(before: Sources, keys: set<Key>, k: Key, after: Sources)
    requires keys <= before.Keys && keys - {k} != {} && keys - {k} <= after.Keys
    requires forall j | j in keys - {k} :: after[j] == before[j]
    ensures FirstSeen(after, keys - {k}) == FirstSeen(before, keys) <==>
            exists j | j in keys :: j != k && before[j].firstSeenAt == FirstSeen(before, keys)
  {
    var t := FirstSeen(before, keys);
    if exists j | j in keys :: j != k && before[j].firstSeenAt == t {
      var j :| j in keys && j != k && before[j].firstSeenAt == t;
      assert j in keys - {k} && after[j].firstSeenAt == t;
      FirstSeenIs(after, keys - {k}, t);
    } else {
      var j :| j in keys - {k} && after[j].firstSeenAt == FirstSeen(after, keys - {k});
      assert j in keys && j != k;
    }
  }

  /** One condition for the ID the row joins, one for the ID it leaves, none for the others. */
  predicate KeepsAt(hash: Hash, s: Sources, c: Canonicals, k: Key, row: SourceRow, id: int) {
    if id == CanonicalId(hash, k, row) then JoinKeeps(hash, c, k, row)
    else row.canonicalId == Some(id) ==> LeaveKeeps(hash, s, c, k, row)
  }

  lemma FirstSeenAfterRefresh(hash: Hash, before: Sources, c: Canonicals, k: Key, row: SourceRow, now: int, id: int)
    requires OneRowChanged(before, k, row)
    requires id in c <==> Group(before, id) != {}
    requires FirstSeenExactAt(before, c, id)
    ensures var s' := Moved(hash, before, k, row, now);
            var c' := Refresh(hash, before[k := row], c, k, now).1;
            FirstSeenExactAt(s', c', id) <==> KeepsAt(hash, before, c, k, row, id)
  {
    var s' := Moved(hash, before, k, row, now);
    var group := Group(before, id);
    MovedGroup(hash, before, k, row, now, id);
    RefreshAt(hash, before, c, k, row, now, id);
    if id == CanonicalId(hash, k, row) {
      if id in c {
        JoinFirstSeen(before, group, k, s');
        if row.canonicalId == Some(id) { assert k in group; }
      }
    } else if row.canonicalId == Some(id) {
      if id in c && group - {k} != {} {
        LeaveFirstSeen(before, group, k, s');
      }
    } else {
      assert group - {k} == group;
      if id in c {
        FirstSeenIs(s', Group(s', id), c[id].firstSeenAt);
      }
    }
  }

  /**
   A refresh does not overwrite `first_seen_at` on conflict. It leaves every row with the
   time a rebuild would compute if and only if the changed row joins no group first seen
   later than it, and leaves none that it alone had seen first.
   */
  lemma FirstSeenExactIff(hash: Hash, before: Sources, c: Canonicals, k: Key, row: SourceRow, now: int)
    requires Consistent(hash, before, c) && FirstSeenExact(before, c) && OneRowChanged(before, k, row)
    ensures var (s', c') := Refresh(hash, before[k := row], c, k, now);
            FirstSeenExact(s', c') <==> JoinKeeps(hash, c, k, row) && LeaveKeeps(hash, before, c, k, row)
  {
    var (s', c') := Refresh(hash, before[k := row], c, k, now);
    forall id ensures FirstSeenExactAt(s', c', id) <==> KeepsAt(hash, before, c, k, row, id) {
      FirstSeenAtEveryId(hash, before, c, k, row, now, id);
    }
    KeepsEverywhere(hash, before, c, k, row);
  }

  lemma FirstSeenAtEveryId(hash: Hash, before: Sources, c: Canonicals, k: Key, row: SourceRow, now: int, id: int)
    requires Consistent(hash, before, c) && FirstSeenExact(before, c) && OneRowChanged(before, k, row)
    ensures var (s', c') := Refresh(hash, before[k := row], c, k, now);
            FirstSeenExactAt(s', c', id) <==> KeepsAt(hash, before, c, k, row, id)
  {
    assert RightAt(before, c, id);
    assert FirstSeenExactAt(before, c, id);
    RefreshAt(hash, before, c, k, row, now, id);
    FirstSeenAfterRefresh(hash, before, c, k, row, now, id);
  }

  lemma KeepsEverywhere(hash: Hash, s: Sources, c: Canonicals, k: Key, row: SourceRow)
    ensures (forall id :: KeepsAt(hash, s, c, k, row, id))
        <==> JoinKeeps(hash, c, k, row) && LeaveKeeps(hash, s, c, k, row)
  {
    assert KeepsAt(hash, s, c, k, row, CanonicalId(hash, k, row)) <==> JoinKeeps(hash, c, k, row);
    if row.canonicalId.Some? && row.canonicalId.value != CanonicalId(hash, k, row) {
      assert KeepsAt(hash, s, c, k, row, row.canonicalId.value) <==> LeaveKeeps(hash, s, c, k, row);
    }
  }

  /** A source row with a usable content identity. */
  function SampleRow(firstSeenAt: int, link: Option<int>): SourceRow {
    SourceRow(Immich, link, Sha1, Some(ShaText(1, 1)), Some(1), None, None, Image, "a.jpg", 0, None,
              Active, false, None, None, firstSeenAt, firstSeenAt)
  }

  /** A catalog with one copy of a picture, and the same catalog with a copy first seen earlier. */
  function OneCopy(hash: Hash): Sources {
    map[Key(1, 1) := SampleRow(5, Some(hash(Content(Image, 1, 1))))]
  }

  function EarlierCopy(): SourceRow {
    SampleRow(3, None)
  }

  /** A concrete difference: after the earlier copy arrives, refresh and rebuild disagree. */
  lemma FirstSeenCanDiffer(hash: Hash)
    ensures var id := hash(Content(Image, 1, 1));
            var (before, c) := Rebuild(hash, OneCopy(hash), 0);
            var after := before[Key(2, 2) := EarlierCopy()];
            && Consistent(hash, before, c) && OneRowChanged(before, Key(2, 2), EarlierCopy())
            && id in Refresh(hash, after, c, Key(2, 2), 0).1
            && Refresh(hash, after, c, Key(2, 2), 0).1[id].firstSeenAt == 5
            && id in Rebuild(hash, after, 0).1
            && Rebuild(hash, after, 0).1[id].firstSeenAt == 3
  {
    var id := hash(Content(Image, 1, 1));
    var c := Rebuild(hash, OneCopy(hash), 0).1;
    OneCopyIsLinked(hash);
    RebuildIsConsistent(hash, OneCopy(hash), 0);
    SampleFirstSeen(hash, OneCopy(hash), {Key(1, 1)}, 5);
    JoiningKeepsOld(hash, OneCopy(hash), c, Key(2, 2), EarlierCopy(), id);
    TwoCopies(hash);
  }

  lemma OneCopyIsLinked(hash: Hash)
    ensures Rebuild(hash, OneCopy(hash), 0).0 == OneCopy(hash)
  {
  }

  lemma TwoCopies(hash: Hash)
    ensures var id, c := hash(Content(Image, 1, 1)), Rebuild(hash, OneCopy(hash)[Key(2, 2) := EarlierCopy()], 0).1;
            id in c && c[id].firstSeenAt == 3
  {
    SampleFirstSeen(hash, OneCopy(hash)[Key(2, 2) := EarlierCopy()], {Key(1, 1), Key(2, 2)}, 3);
  }

  lemma JoiningKeepsOld(hash: Hash, before: Sources, c: Canonicals, k: Key, row: SourceRow, id: int)
    requires id in c && CanonicalId(hash, k, row) == id
    ensures var c' := Refresh(hash, before[k := row], c, k, 0).1;
            id in c' && c'[id].firstSeenAt == c[id].firstSeenAt
  {
    RefreshAt(hash, before, c, k, row, 0, id);
    MovedGroup(hash, before, k, row, 0, id);
    assert k in Group(Moved(hash, before, k, row, 0), id);
  }

  /** Rebuilding rows of one identity gives their earliest first-seen time. */
  lemma SampleFirstSeen(hash: Hash, s: Sources, keys: set<Key>, t: int)
    requires s.Keys == keys && IsFirstSeen(s, keys, t)
    requires forall k | k in s :: IdentityOf(k, s[k]) == Content(Image, 1, 1)
    ensures var id := hash(Content(Image, 1, 1));
            var c := Rebuild(hash, s, 0).1;
            id in c && c[id].firstSeenAt == t
  {
    var id := hash(Content(Image, 1, 1));
    var linked := Rebuild(hash, s, 0).0;
    forall k | k in s ensures linked[k].canonicalId == Some(id) && linked[k].firstSeenAt == s[k].firstSeenAt {
    }
    assert Group(linked, id) == keys;
    var k :| k in keys && s[k].firstSeenAt == t;
    assert linked[k].firstSeenAt == t;
    assert linked[k].canonicalId.value in Links(linked);
    RebuiltIsPointwise(linked, map[], Links(linked), id, 0);
    FirstSeenIs(linked, keys, t);
    assert Aggregate(linked, keys, 0).firstSeenAt == t;
  }
}
