/**
 The two identity reconcilers as they run over the tables: loops over mappings and files,
 then row updates and canonical refreshes. Both are proved against the value-level model.
 */
module ExternalReconcile {
  import opened Wrappers
  import opened CatalogTables
  import opened CanonicalAssets
  import opened CanonicalStore
  import opened ExternalPaths
  import opened ExternalIdentity
  import opened ExternalPrecedence

  /** Scan the mappings; each one that finds a file overrides the earlier ones. */
  method FindReplacement(files: seq<LocalFile>, mappings: seq<Mapping>, k: Key, row: SourceRow, original: string)
    returns (desired: Option<LocalFile>)
    ensures desired == Replacement(files, mappings, k, row, original)
  {
    desired := None;
    var n := 0;
    while n < |mappings|
      invariant 0 <= n <= |mappings|
      invariant desired == Resolve(mappings[..n], LossPick(files, k, row, original))
    {
      var m := mappings[n];
      assert mappings[..n + 1][..n] == mappings[..n];
      if m.immich == k.sourceKey && RelativePath(original, m.prefix).Some? {
        var found := Winner(files, ServedBy(m, k, row, original));
        if found.Some? {
          desired := found;
        }
      } else {
        NoWinner(files, ServedBy(m, k, row, original));
      }
      n := n + 1;
    }
    assert mappings[..n] == mappings;
  }

  lemma {:induction false} NoWinner(files: seq<LocalFile>, p: LocalFile -> bool)
    requires forall f :: !p(f)
    ensures Winner(files, p) == None
  {
    if files != [] {
      NoWinner(files[..|files| - 1], p);
    }
  }

  /** The rows some lost path reaches, each with the original path found last. */
  method FindAffected(h: PathHash, s: Sources, mappings: seq<Mapping>, source: int, root: int, paths: seq<string>)
    returns (affected: map<Key, string>)
    ensures affected.Keys <= s.Keys
    ensures forall k | k in s ::
              HitPath(h, mappings, source, root, paths, k, s[k]) == if k in affected then Some(affected[k]) else None
  {
    affected := map[];
    for i := 0 to |paths|
      invariant affected.Keys <= s.Keys
      invariant forall k | k in s ::
                  HitPath(h, mappings, source, root, paths[..i], k, s[k])
                  == if k in affected then Some(affected[k]) else None
    {
      affected := AffectedBy(h, s, mappings, source, root, paths[i], affected);
      assert paths[..i + 1][..i] == paths[..i];
    }
    assert paths[..|paths|] == paths;
  }

  /** One lost path, mapping by mapping; what it reaches overrides what earlier paths found. */
  method AffectedBy(
      h: PathHash, s: Sources, mappings: seq<Mapping>, source: int, root: int, path: string, earlier: map<Key, string>)
    returns (affected: map<Key, string>)
    requires earlier.Keys <= s.Keys
    ensures affected.Keys <= s.Keys
    ensures forall k | k in s ::
        Found(affected, k) == Over(HitByPath(h, mappings, source, root, path, k, s[k]), Found(earlier, k))
  {
    affected := earlier;
    for j := 0 to |mappings|
      invariant affected.Keys <= s.Keys
      invariant forall k | k in s ::
                  Found(affected, k)
                      == Over(HitByPath(h, mappings[..j], source, root, path, k, s[k]), Found(earlier, k))
    {
      var m := mappings[j];
      forall k | k in s
        ensures HitByPath(h, mappings[..j + 1], source, root, path, k, s[k])
             == if Hits(h, m, source, root, path, k, s[k]) then OriginalPath(m.prefix, path)
                else HitByPath(h, mappings[..j], source, root, path, k, s[k])
      {
        NextHitByPath(h, mappings, j, source, root, path, k, s[k]);
      }
      affected := affected + map k | k in s && Hits(h, m, source, root, path, k, s[k]) ::
          OriginalPath(m.prefix, path).value;
    }
    assert mappings[..|mappings|] == mappings;
  }

  lemma NextHitByPath(
      h: PathHash, mappings: seq<Mapping>, j: nat, source: int, root: int, path: string, k: Key, row: SourceRow)
    requires j < |mappings|
    ensures HitByPath(h, mappings[..j + 1], source, root, path, k, row)
         == if Hits(h, mappings[j], source, root, path, k, row) then OriginalPath(mappings[j].prefix, path)
            else HitByPath(h, mappings[..j], source, root, path, k, row)
  {
    assert mappings[..j + 1][..j] == mappings[..j];
  }

  function Found<V>(found: map<Key, V>, k: Key): Option<V> {
    if k in found then Some(found[k]) else None
  }

  function Over<V>(later: Option<V>, earlier: Option<V>): Option<V> {
    if later.Some? then later else earlier
  }

  /**
   Give every affected row its replacement identity and refresh its canonical groups. The
   catalog stays consistent after each row.
   */
  method ReconcileLoss(
    store: Store, h: PathHash, files: seq<LocalFile>, mappings: seq<Mapping>,
    source: int, root: int, paths: seq<string>, now: int)
    requires Consistent(store.hash, store.sources, store.canonical)
    modifies store
    ensures store.sources == LossSources(store.hash, h, files, mappings, source, root, paths, old(store.sources), now)
    ensures Consistent(store.hash, store.sources, store.canonical)
  {
    var base := store.sources;
    var affected := FindAffected(h, base, mappings, source, root, paths);
    var todo := affected.Keys;
    assert SettledBut(store.hash, files, mappings, base, affected, todo, now) == base;
    while todo != {}
      invariant todo <= affected.Keys
      invariant store.sources == SettledBut(store.hash, files, mappings, base, affected, todo, now)
      invariant Consistent(store.hash, store.sources, store.canonical)
      decreases todo
    {
      var k :| k in todo;
      var desired := FindReplacement(files, mappings, k, base[k], affected[k]);
      SettledNext(store.hash, files, mappings, base, affected, todo, k, now);
      SettleRow(store, k, desired, now);
      todo := todo - {k};
    }
  }

  /** A table in the middle of a loss reconcile: the rows of `todo` are still as they were. */
  function SettledBut(
    hash: Hash, files: seq<LocalFile>, mappings: seq<Mapping>, s: Sources, affected: map<Key, string>, todo: set<Key>,
        now: int): Sources
  {
    map k | k in s ::
      if k in affected && k !in todo
      then Settled(hash, k, s[k], Replacement(files, mappings, k, s[k], affected[k]), now)
      else s[k]
  }

  lemma SettledNext(
    hash: Hash, files: seq<LocalFile>, mappings: seq<Mapping>, s: Sources, affected: map<Key, string>, todo: set<Key>,
        k: Key, now: int)
    requires k in todo && todo <= affected.Keys <= s.Keys
    ensures var before := SettledBut(hash, files, mappings, s, affected, todo, now);
            && before[k] == s[k]
            && SettledBut(hash, files, mappings, s, affected, todo - {k}, now)
               == before[k := Settled(hash, k, s[k], Replacement(files, mappings, k, s[k], affected[k]), now)]
  {
  }

  /** Write one row's identity when it differs, then refresh that row. */
  method SettleRow(store: Store, k: Key, desired: Option<LocalFile>, now: int)
    requires k in store.sources && Consistent(store.hash, store.sources, store.canonical)
    modifies store
    ensures store.sources == old(store.sources)[k := Settled(store.hash, k, old(store.sources)[k], desired, now)]
    ensures Consistent(store.hash, store.sources, store.canonical)
  {
    var row := store.sources[k];
    var columns := IdentityColumns(desired);
    if (row.canonicalSha1, row.canonicalSize) != columns {
      var written := row.(canonicalSha1 := columns.0, canonicalSize := columns.1, updatedAt := now);
      ChangedRowSettles(store.hash, store.sources, store.canonical, k, written, now);
      RefreshedSources(store.hash, store.sources, store.canonical, k, written, now);
      store.sources := store.sources[k := written];
      store.RefreshAsset(k, now);
    } else {
      assert store.sources[k := row] == store.sources;
    }
  }

  /** Changing one row of a consistent catalog and refreshing it leaves a consistent catalog. */
  lemma ChangedRowSettles(hash: Hash, s: Sources, c: Canonicals, k: Key, row: SourceRow, now: int)
    requires k in s && Consistent(hash, s, c) && row.canonicalId == s[k].canonicalId
    ensures var r := Refresh(hash, s[k := row], c, k, now); Consistent(hash, r.0, r.1)
  {
    var after := s[k := row];
    ChangesLeaveTheRest(hash, s, after, c, {k});
    RefreshSettles(hash, after, c, {k}, k, now);
    var r := Refresh(hash, after, c, k, now);
    NothingPending(hash, r.0, r.1, {k} - {k});
  }

  lemma RefreshedSources(hash: Hash, s: Sources, c: Canonicals, k: Key, row: SourceRow, now: int)
    ensures Refresh(hash, s[k := row], c, k, now).0 == s[k := Relinked(hash, k, row, now)]
  {
  }

  lemma NothingPending(hash: Hash, s: Sources, c: Canonicals, pending: set<Key>)
    requires ConsistentBut(hash, s, c, pending) && pending == {}
    ensures Consistent(hash, s, c)
  {
    assert Touched(hash, s, pending) == {};
  }

  // ----------------------------------------------------------------- the full reconcile

  /** Record, mapping by mapping and file by file, what each mapped row should have. */
  method FindDesired(h: PathHash, files: seq<LocalFile>, mappings: seq<Mapping>, s: Sources)
    returns (desired: map<Key, LocalFile>)
    ensures desired.Keys <= s.Keys
    ensures forall k | k in s ::
              Desired(h, files, mappings, k, s[k]) == if k in desired then Some(desired[k]) else None
  {
    desired := map[];
    for i := 0 to |mappings|
      invariant desired.Keys <= s.Keys
      invariant forall k | k in s ::
                  Desired(h, files, mappings[..i], k, s[k]) == if k in desired then Some(desired[k]) else None
    {
      desired := DesiredBy(h, files, mappings[i], s, desired);
      assert mappings[..i + 1][..i] == mappings[..i];
    }
    assert mappings[..|mappings|] == mappings;
  }

  /** One mapping, file by file; what it records replaces what earlier mappings recorded. */
  method DesiredBy(h: PathHash, files: seq<LocalFile>, m: Mapping, s: Sources, earlier: map<Key, LocalFile>)
    returns (desired: map<Key, LocalFile>)
    requires earlier.Keys <= s.Keys
    ensures desired.Keys <= s.Keys
    ensures forall k | k in s :: Found(desired, k) == Over(FullPick(h, files, k, s[k])(m), Found(earlier, k))
  {
    desired := earlier;
    for j := 0 to |files|
      invariant desired.Keys <= s.Keys
      invariant forall k | k in s ::
                  Found(desired, k) == Over(Winner(files[..j], RecordedBy(h, m, k, s[k])), Found(earlier, k))
    {
      forall k | k in s
        ensures Winner(files[..j + 1], RecordedBy(h, m, k, s[k]))
             == if Records(h, m, files[j], k, s[k]) then Some(files[j])
                else Winner(files[..j], RecordedBy(h, m, k, s[k]))
      {
        NextWinner(files, j, RecordedBy(h, m, k, s[k]));
      }
      desired := desired + map k | k in s && Records(h, m, files[j], k, s[k]) :: files[j];
    }
    assert files[..|files|] == files;
  }

  lemma NextWinner(files: seq<LocalFile>, j: nat, p: LocalFile -> bool)
    requires j < |files|
    ensures Winner(files[..j + 1], p) == if p(files[j]) then Some(files[j]) else Winner(files[..j], p)
  {
    assert files[..j + 1][..j] == files[..j];
  }

  /** The mapped rows whose identity columns differ from what is desired. */
  function Changed(s: Sources, desired: map<Key, LocalFile>): set<Key> {
    set k | k in s && PathMapped(s[k])
            && (s[k].canonicalSha1, s[k].canonicalSize)
               != IdentityColumns(if k in desired then Some(desired[k]) else None)
  }

  /** The two bulk updates: clear stale identities, write desired ones. */
  function WithIdentities(s: Sources, desired: map<Key, LocalFile>, now: int): Sources {
    map k | k in s ::
      if k in Changed(s, desired) then
        var columns := IdentityColumns(if k in desired then Some(desired[k]) else None);
        s[k].(canonicalSha1 := columns.0, canonicalSize := columns.1, updatedAt := now)
      else s[k]
  }

  /** Link the changed rows to their new IDs and collect every old and new ID. */
  method RelinkChanged(store: Store, changed: set<Key>, now: int) returns (ghost rows: seq<Key>, ids: set<int>)
    requires changed <= store.sources.Keys
    modifies store`sources
    ensures changed == set k | k in rows
    ensures store.sources == RelinkedRows(store.hash, old(store.sources), rows, now)
    ensures ids == Touched(store.hash, old(store.sources), changed)
  {
    var written := store.sources;
    ids, rows := {}, [];
    ghost var done: set<Key> := {};
    var todo := changed;
    while todo != {}
      invariant done + todo == changed
      invariant forall k :: k in rows <==> k in done
      invariant ids == Touched(store.hash, written, done)
      invariant store.sources == RelinkedRows(store.hash, written, rows, now)
      decreases todo
    {
      var k :| k in todo;
      TouchedOneMore(store.hash, written, done, k);
      RelinkedOneMore(store.hash, written, rows, k, now);
      ids := ids + RefreshIds(store.hash, written, k);
      store.sources := store.sources[k := Relinked(store.hash, k, written[k], now)];
      todo, done, rows := todo - {k}, done + {k}, rows + [k];
    }
    assert changed == set k | k in rows;
  }

  method ReconcileAll(store: Store, h: PathHash, files: seq<LocalFile>, mappings: seq<Mapping>, now: int)
    requires Consistent(store.hash, store.sources, store.canonical)
    modifies store
    ensures store.sources == FullSources(store.hash, h, files, mappings, old(store.sources), now)
    ensures Consistent(store.hash, store.sources, store.canonical)
    ensures Reconciled(h, files, mappings, store.sources)
  {
    var before := store.sources;
    FullReconciles(store.hash, h, files, mappings, before, now);
    var desired := FindDesired(h, files, mappings, before);
    var changed := Changed(before, desired);
    var written := WithIdentities(before, desired, now);
    ChangesLeaveTheRest(store.hash, before, written, store.canonical, changed);
    store.sources := written;
    ghost var rows;
    var ids;
    rows, ids := RelinkChanged(store, changed, now);
    BatchRebuildIsConsistent(store.hash, written, store.canonical, rows, now);
    FullIsRelinked(store.hash, h, files, mappings, before, desired, rows, now);
    store.RebuildCanonicalIds(ids, now);
  }

  /** Writing the identities and then relinking the changed rows is the full reconcile of the rows. */
  lemma FullIsRelinked(
    hash: Hash, h: PathHash, files: seq<LocalFile>, mappings: seq<Mapping>, s: Sources,
    desired: map<Key, LocalFile>, rows: seq<Key>, now: int)
    requires forall k | k in s ::
               Desired(h, files, mappings, k, s[k]) == if k in desired then Some(desired[k]) else None
    requires Changed(s, desired) == set k | k in rows
    ensures RelinkedRows(hash, WithIdentities(s, desired, now), rows, now)
        == FullSources(hash, h, files, mappings, s, now)
  {
    assert forall k | k in s :: k in rows <==> k in Changed(s, desired);
  }

  lemma RelinkedOneMore(hash: Hash, s: Sources, rows: seq<Key>, k: Key, now: int)
    requires k in s
    ensures RelinkedRows(hash, s, rows + [k], now)
         == RelinkedRows(hash, s, rows, now)[k := Relinked(hash, k, s[k], now)]
  {
  }

  lemma TouchedOneMore(hash: Hash, s: Sources, keys: set<Key>, k: Key)
    requires k in s
    ensures Touched(hash, s, keys + {k}) == Touched(hash, s, keys) + RefreshIds(hash, s, k)
  {
  }

  /**
   Over one catalog the loss reconcile and the full reconcile leave the same source rows if
   and only if the hit rows' last pairs agree, and then the same links and canonical rows.
   */
  lemma ReconcilersAgree(
    hash: Hash, h: PathHash, before: seq<LocalFile>, after: seq<LocalFile>, mappings: seq<Mapping>,
    source: int, root: int, paths: seq<string>, s: Sources, now: int, lossCanonical: Canonicals,
    fullCanonical: Canonicals)
    requires Reconciled(h, before, mappings, s) && OnlyLost(before, after, source, root, paths)
    requires Consistent(hash, LossSources(hash, h, after, mappings, source, root, paths, s, now), lossCanonical)
    requires Consistent(hash, FullSources(hash, h, after, mappings, s, now), fullCanonical)
    ensures LossSources(hash, h, after, mappings, source, root, paths, s, now)
            == FullSources(hash, h, after, mappings, s, now)
            <==> SameLastPerHit(h, after, mappings, source, root, paths, s)
    ensures SameLastPerHit(h, after, mappings, source, root, paths, s) ==> Cores(lossCanonical) == Cores(fullCanonical)
  {
    LossEqualsFullIff(hash, h, before, after, mappings, source, root, paths, s, now);
    if SameLastPerHit(h, after, mappings, source, root, paths, s) {
      ConsistentIsUnique(hash, FullSources(hash, h, after, mappings, s, now), lossCanonical, fullCanonical);
    }
  }
}
