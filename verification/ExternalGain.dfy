/**
 The identity-gain reconcile: a Local file that has just been read gives its identity to
 every row it reaches, without looking at other files. It agrees with the full reconcile
 exactly when nobody with other content has precedence for one of those rows; under an
 accepted configuration only a file name with white space around it can have that.
 */
module ExternalGain {
  import opened Wrappers
  import opened GalleryRows
  import opened CatalogTables
  import opened CanonicalAssets
  import opened CanonicalStore
  import opened ExternalPaths
  import opened ExternalIdentity
  import opened ExternalPrecedence
  import opened ExternalConfigured
  import opened ExternalReconcile

  predicate Reaches(h: PathHash, mappings: seq<Mapping>, f: LocalFile, k: Key, row: SourceRow) {
    exists m :: m in mappings && Records(h, m, f, k, row)
  }

  function GainSources(hash: Hash, h: PathHash, mappings: seq<Mapping>, f: LocalFile, s: Sources, now: int): Sources {
    map k | k in s :: if Reaches(h, mappings, f, k, s[k]) then Settled(hash, k, s[k], Some(f), now) else s[k]
  }

  /** Every pair of a mapping and a file that matches the row with other content has a later one with this content. */
  ghost predicate Uncontested(
      h: PathHash, files: seq<LocalFile>, mappings: seq<Mapping>, f: LocalFile, k: Key, row: SourceRow)
  {
    forall j: nat, i: nat | Picks(files, mappings, Recording(h, k, row), j, i) && !SameContent(files[i], f) ::
      exists j': nat, i': nat ::
        Picks(files, mappings, Recording(h, k, row), j', i') && Later(j, i, j', i') && SameContent(files[i'], f)
  }

  /** In particular when no later mapping, and no higher location of the same one, has other content. */
  lemma NobodyLaterSuffices(
      h: PathHash, files: seq<LocalFile>, mappings: seq<Mapping>, j: nat, i: nat, k: Key, row: SourceRow)
    requires Picks(files, mappings, Recording(h, k, row), j, i)
    requires forall j': nat, i': nat | Picks(files, mappings, Recording(h, k, row), j', i') && Later(j, i, j', i') ::
               SameContent(files[i'], files[i])
    ensures Uncontested(h, files, mappings, files[i], k, row)
  {
  }

  /** Before the gain no other file was active at its place, and afterwards it is the only one there. */
  predicate OnlyGained(before: seq<LocalFile>, after: seq<LocalFile>, f: LocalFile) {
    && f in after && OnlyLost(before, after, f.source, f.root, [f.path])
    && (forall i | 0 <= i < |before| && At(before[i], f.source, f.root, [f.path]) :: !before[i].active)
    && (forall i | 0 <= i < |after| && At(after[i], f.source, f.root, [f.path]) :: after[i] == f)
  }

  lemma UnreachedKeepsDesired(
    h: PathHash, before: seq<LocalFile>, after: seq<LocalFile>, mappings: seq<Mapping>, f: LocalFile, k: Key,
        row: SourceRow)
    requires OnlyGained(before, after, f) && !Reaches(h, mappings, f, k, row)
    ensures Desired(h, after, mappings, k, row) == Desired(h, before, mappings, k, row)
  {
    forall i | 0 <= i < |mappings|
      ensures FullPick(h, after, k, row)(mappings[i]) == FullPick(h, before, k, row)(mappings[i])
    {
      var m := mappings[i];
      assert m in mappings && !Records(h, m, f, k, row);
      WinnerElsewhere(before, f.source, f.root, [f.path], RecordedBy(h, m, k, row));
      WinnerElsewhere(after, f.source, f.root, [f.path], RecordedBy(h, m, k, row));
    }
    SameResolution(mappings, FullPick(h, after, k, row), FullPick(h, before, k, row));
  }

  /** The rows a gain reaches are settled alike exactly when the file's content has precedence. */
  lemma ReachedSettlesAlikeIff(
    hash: Hash, h: PathHash, files: seq<LocalFile>, mappings: seq<Mapping>, f: LocalFile, k: Key, row: SourceRow,
        now: int)
    requires f in files && Reaches(h, mappings, f, k, row)
    ensures Settled(hash, k, row, Some(f), now) == Settled(hash, k, row, Desired(h, files, mappings, k, row), now)
            <==> Uncontested(h, files, mappings, f, k, row)
  {
    var q, choice := Recording(h, k, row), Desired(h, files, mappings, k, row);
    DesiredIsLastRecorded(h, files, mappings, k, row);
    SettledAlikeIff(hash, k, row, Some(f), choice, now);
    ReachedIsPicked(h, files, mappings, f, k, row);
    var j: nat, i: nat :| IsLastPick(files, mappings, q, j, i) && files[i] == choice.value;
    UncontestedIffLast(h, files, mappings, f, k, row, j, i);
  }

  lemma ReachedIsPicked(
      h: PathHash, files: seq<LocalFile>, mappings: seq<Mapping>, f: LocalFile, k: Key, row: SourceRow)
    requires f in files && Reaches(h, mappings, f, k, row)
    ensures exists j: nat, i: nat :: Picks(files, mappings, Recording(h, k, row), j, i) && files[i] == f
  {
    var m :| m in mappings && Records(h, m, f, k, row);
    var j: nat :| j < |mappings| && mappings[j] == m;
    var i: nat :| i < |files| && files[i] == f;
    assert Picks(files, mappings, Recording(h, k, row), j, i);
  }

  lemma UncontestedIffLast(
    h: PathHash, files: seq<LocalFile>, mappings: seq<Mapping>, f: LocalFile, k: Key, row: SourceRow, j: nat, i: nat)
    requires IsLastPick(files, mappings, Recording(h, k, row), j, i)
    ensures Uncontested(h, files, mappings, f, k, row) <==> SameContent(files[i], f)
  {
    var q := Recording(h, k, row);
    forall j': nat, i': nat | Picks(files, mappings, q, j', i') && !(j' == j && i' == i) ensures Later(j', i', j, i) {
      assert !Later(j, i, j', i');
    }
  }

  /** The gain reconcile is a full reconcile of the new state if and only if every reached row is uncontested. */
  lemma GainEqualsFullIff(
    hash: Hash, h: PathHash, before: seq<LocalFile>, after: seq<LocalFile>, mappings: seq<Mapping>, f: LocalFile,
        s: Sources, now: int)
    requires Reconciled(h, before, mappings, s) && OnlyGained(before, after, f)
    ensures GainSources(hash, h, mappings, f, s, now) == FullSources(hash, h, after, mappings, s, now)
            <==> forall k | k in s && Reaches(h, mappings, f, k, s[k]) :: Uncontested(h, after, mappings, f, k, s[k])
  {
    var gain, full := GainSources(hash, h, mappings, f, s, now), FullSources(hash, h, after, mappings, s, now);
    forall k | k in s
      ensures gain[k] == full[k] <==> (Reaches(h, mappings, f, k, s[k]) ==> Uncontested(h, after, mappings, f, k, s[k]))
    {
      if Reaches(h, mappings, f, k, s[k]) {
        ReachedSettlesAlikeIff(hash, h, after, mappings, f, k, s[k], now);
      } else if PathMapped(s[k]) {
        UnreachedKeepsDesired(h, before, after, mappings, f, k, s[k]);
      }
    }
    if forall k | k in s && Reaches(h, mappings, f, k, s[k]) :: Uncontested(h, after, mappings, f, k, s[k]) {
      assert gain == full;
    } else {
      var k :| k in s && Reaches(h, mappings, f, k, s[k]) && !Uncontested(h, after, mappings, f, k, s[k]);
      assert gain[k] != full[k];
    }
  }

  // ------------------------------------------------------- under an accepted configuration

  lemma StaysElsewhere(
      before: seq<LocalFile>, after: seq<LocalFile>, source: int, root: int, paths: seq<string>, f: LocalFile)
    requires OnlyLost(before, after, source, root, paths) && f in before && !At(f, source, root, paths)
    ensures f in after
  {
    ElsewhereHas(before, source, root, paths, f);
    ElsewhereHas(after, source, root, paths, f);
  }

  lemma {:induction false} ElsewhereHas(
      files: seq<LocalFile>, source: int, root: int, paths: seq<string>, f: LocalFile)
    ensures f in Elsewhere(files, source, root, paths) <==> f in files && !At(f, source, root, paths)
  {
    if files != [] {
      var front, last := files[..|files| - 1], files[|files| - 1];
      assert files == front + [last];
      ElsewhereHas(front, source, root, paths, f);
    }
  }

  /** A gained file is the one its rows want, so the gain is a full reconcile. */
  lemma GainIsFull(
    hash: Hash, h: PathHash, before: seq<LocalFile>, after: seq<LocalFile>, mappings: seq<Mapping>, f: LocalFile,
        s: Sources, now: int)
    requires Injective(h) && Accepted(mappings) && Distinct(after)
    requires Reconciled(h, before, mappings, s) && OnlyGained(before, after, f)
    ensures GainSources(hash, h, mappings, f, s, now) == FullSources(hash, h, after, mappings, s, now)
    ensures Reconciled(h, after, mappings, GainSources(hash, h, mappings, f, s, now))
  {
    forall k | k in s && Reaches(h, mappings, f, k, s[k]) ensures Uncontested(h, after, mappings, f, k, s[k]) {
      var m :| m in mappings && Records(h, m, f, k, s[k]);
      forall j: nat, i: nat | Picks(after, mappings, Recording(h, k, s[k]), j, i) ensures after[i] == f {
        OneMapping(h, mappings, m, f, mappings[j], after[i], k, s[k]);
        OneFile(after, f, after[i]);
      }
    }
    GainEqualsFullIff(hash, h, before, after, mappings, f, s, now);
    FullReconciles(hash, h, after, mappings, s, now);
  }

  /** No Immich row of either media type shows the file. */
  predicate Unmapped(h: PathHash, mappings: seq<Mapping>, f: LocalFile, media: Media, s: Sources) {
    forall k | k in s :: !Reaches(h, mappings, f, k, s[k]) && !Reaches(h, mappings, f.(media := media), k, s[k])
  }

  /**
   The media type a gain works with is that of the file's name; the registered one is that of
   the name under which these bytes were first seen. The gain keeps every mapped row
   reconciled if and only if both are the same or no row shows the file.
   */
  lemma GainReconcilesIff(
    hash: Hash, h: PathHash, before: seq<LocalFile>, after: seq<LocalFile>, mappings: seq<Mapping>, f: LocalFile,
        media: Media, s: Sources, now: int)
    requires Injective(h) && Accepted(mappings) && Distinct(after)
    requires Reconciled(h, before, mappings, s) && OnlyGained(before, after, f) && f.active
    ensures Reconciled(h, after, mappings, GainSources(hash, h, mappings, f.(media := media), s, now))
            <==> media == f.media || Unmapped(h, mappings, f, media, s)
  {
    var g := f.(media := media);
    var gain := GainSources(hash, h, mappings, g, s, now);
    if media == f.media {
      assert g == f;
      GainIsFull(hash, h, before, after, mappings, f, s, now);
    } else if Unmapped(h, mappings, f, media, s) {
      forall k | k in gain && PathMapped(gain[k])
        ensures (gain[k].canonicalSha1, gain[k].canonicalSize)
                == IdentityColumns(Desired(h, after, mappings, k, gain[k]))
      {
        UnreachedKeepsDesired(h, before, after, mappings, f, k, s[k]);
      }
    } else {
      var k :| k in s && (Reaches(h, mappings, f, k, s[k]) || Reaches(h, mappings, g, k, s[k]));
      MisreadIsNotReconciled(hash, h, before, after, mappings, f, media, s, k, now);
    }
  }

  /** A row that shows the file is missed, or gets an identity that no registered file has for it. */
  lemma MisreadIsNotReconciled(
    hash: Hash, h: PathHash, before: seq<LocalFile>, after: seq<LocalFile>, mappings: seq<Mapping>, f: LocalFile,
        media: Media, s: Sources, k: Key, now: int)
    requires Injective(h) && Accepted(mappings) && Distinct(after)
    requires Reconciled(h, before, mappings, s) && OnlyGained(before, after, f) && f.active && media != f.media
    requires k in s && (Reaches(h, mappings, f, k, s[k]) || Reaches(h, mappings, f.(media := media), k, s[k]))
    ensures !Reconciled(h, after, mappings, GainSources(hash, h, mappings, f.(media := media), s, now))
  {
    var g, row := f.(media := media), s[k];
    var gain := GainSources(hash, h, mappings, g, s, now);
    assert k in gain && PathMapped(row);
    SettlingKeepsDesired(hash, h, after, mappings, k, row, gain[k]);
    if Reaches(h, mappings, g, k, row) {
      OthersDoNotMatch(h, after, mappings, g, f, k, row);
      assert !Matched(h, after, mappings, k, row);
      UnmatchedWantsNone(h, after, mappings, k, row);
    } else {
      var m :| m in mappings && Records(h, m, f, k, row);
      DesiredIsTheMatch(h, after, mappings, m, f, k, row);
      GainedWasUnmatched(h, before, after, mappings, f, k, row);
      UnmatchedWantsNone(h, before, mappings, k, row);
    }
  }

  /** Whatever matches a row that the file's path reaches is the file at that path. */
  lemma OthersDoNotMatch(
      h: PathHash, files: seq<LocalFile>, mappings: seq<Mapping>, g: LocalFile, f: LocalFile, k: Key, row: SourceRow)
    requires Injective(h) && Accepted(mappings) && Distinct(files)
    requires f in files && f.active && SamePlace(f, g) && Reaches(h, mappings, g, k, row)
    ensures forall m, x | m in mappings && x in files && Records(h, m, x, k, row) :: x == f
  {
    var m :| m in mappings && Records(h, m, g, k, row);
    forall m', x | m' in mappings && x in files && Records(h, m', x, k, row) ensures x == f {
      OneMapping(h, mappings, m, g, m', x, k, row);
      OneFile(files, f, x);
    }
  }

  lemma GainedWasUnmatched(
      h: PathHash, before: seq<LocalFile>, after: seq<LocalFile>, mappings: seq<Mapping>, f: LocalFile,
      k: Key, row: SourceRow)
    requires Injective(h) && Accepted(mappings) && Distinct(after)
    requires OnlyGained(before, after, f) && f.active && Reaches(h, mappings, f, k, row)
    ensures !Matched(h, before, mappings, k, row)
  {
    OthersDoNotMatch(h, after, mappings, f, f, k, row);
    forall m, x | m in mappings && x in before && Records(h, m, x, k, row) ensures false {
      if !At(x, f.source, f.root, [f.path]) {
        StaysElsewhere(before, after, f.source, f.root, [f.path], x);
      }
    }
  }

  // -------------------------------------------------------------------- rows it gets wrong

  /**
   Two files whose names differ in a leading space. The row has the identity of the one with
   the higher ID, and the gain of the other takes it away until the next full reconcile.
   */
  lemma GainCanOverrule(hash: Hash, h: PathHash, now: int)
    ensures var k, row := Key(1, 1), RowOfName(h, 20, 200);
            var s := map[k := row];
            var before, after := [SPACED.(active := false), PLAIN], [SPACED, PLAIN];
            && Accepted([LIBRARY])
            && Reconciled(h, before, [LIBRARY], s) && OnlyGained(before, after, SPACED)
            && GainSources(hash, h, [LIBRARY], SPACED, s, now)[k].canonicalSize == Some(100)
            && FullSources(hash, h, after, [LIBRARY], s, now)[k].canonicalSize == Some(200)
  {
    var k, row := Key(1, 1), RowOfName(h, 20, 200);
    LibraryIsAccepted();
    FilesOfName(h, row);
    GainOfSpaced();
    PlainIsDesired(h, SPACED.(active := false), k, row);
    PlainIsDesired(h, SPACED, k, row);
    OneRow(hash, h, [SPACED.(active := false), PLAIN], [LIBRARY], k, row, now);
    OneRow(hash, h, [SPACED, PLAIN], [LIBRARY], k, row, now);
    OneRowGain(hash, h, [LIBRARY], SPACED, k, row, now);
  }

  lemma OneRowGain(hash: Hash, h: PathHash, mappings: seq<Mapping>, f: LocalFile, k: Key, row: SourceRow, now: int)
    requires Reaches(h, mappings, f, k, row)
    ensures GainSources(hash, h, mappings, f, map[k := row], now)[k].canonicalSize == Some(f.size)
  {
  }

  lemma GainOfSpaced()
    ensures OnlyGained([SPACED.(active := false), PLAIN], [SPACED, PLAIN], SPACED)
  {
    ElsewhereOfPlain(SPACED.(active := false));
    ElsewhereOfPlain(SPACED);
    assert SPACED in [SPACED, PLAIN];
    assert |PLAIN.path| != |SPACED.path|;
  }

  lemma PlainIsDesired(h: PathHash, other: LocalFile, k: Key, row: SourceRow)
    requires Records(h, LIBRARY, PLAIN, k, row)
    ensures Desired(h, [other, PLAIN], [LIBRARY], k, row) == Some(PLAIN)
  {
    assert [other, PLAIN][1] == PLAIN && [LIBRARY][0] == LIBRARY;
  }

  lemma ElsewhereOfPlain(other: LocalFile)
    requires other.source == 2 && other.root == 0 && other.path == " a.jpg"
    ensures Elsewhere([other, PLAIN], 2, 0, [" a.jpg"]) == [PLAIN]
  {
    assert [other, PLAIN][..1] == [other] && [other][..0] == [];
    assert PLAIN.path !in [" a.jpg"] by { assert |PLAIN.path| == 5; }
    assert At(other, 2, 0, [" a.jpg"]) && !At(PLAIN, 2, 0, [" a.jpg"]);
    assert Elsewhere([other], 2, 0, [" a.jpg"]) == [];
  }

  const FILMED := PLAIN.(media := Video)

  /** Bytes first registered under the name of a film show up as "a.jpg": the gain ignores the registered type. */
  lemma GainCanMisread(hash: Hash, h: PathHash, now: int)
    requires Injective(h)
    ensures var k, row := Key(1, 1), RowOfName(h, 20, 200).(canonicalSha1 := None, canonicalSize := None);
            var s := map[k := row];
            && Accepted([LIBRARY]) && Distinct([FILMED])
            && Reconciled(h, [], [LIBRARY], s) && OnlyGained([], [FILMED], FILMED)
            && !Reconciled(h, [FILMED], [LIBRARY], GainSources(hash, h, [LIBRARY], FILMED.(media := Image), s, now))
  {
    var k, row := Key(1, 1), RowOfName(h, 20, 200).(canonicalSha1 := None, canonicalSize := None);
    LibraryIsAccepted();
    GainOfFilmed();
    PlainReaches(h, k, row);
    UnmatchedWantsNone(h, [], [LIBRARY], k, row);
    OneRow(hash, h, [], [LIBRARY], k, row, now);
    assert !Unmapped(h, [LIBRARY], FILMED, Image, map[k := row]) by {
      assert k in map[k := row] && FILMED.(media := Image) == PLAIN;
    }
    GainReconcilesIff(hash, h, [], [FILMED], [LIBRARY], FILMED, Image, map[k := row], now);
  }

  lemma GainOfFilmed()
    ensures OnlyGained([], [FILMED], FILMED)
  {
    assert [FILMED][..0] == [] && FILMED.path in [FILMED.path];
    assert Elsewhere([FILMED], FILMED.source, FILMED.root, [FILMED.path]) == [];
  }

  lemma PlainReaches(h: PathHash, k: Key, row: SourceRow)
    requires k == Key(1, 1) && row == RowOfName(h, 20, 200).(canonicalSha1 := None, canonicalSize := None)
    ensures Reaches(h, [LIBRARY], PLAIN, k, row)
  {
    OriginalsOfName();
    assert LIBRARY in [LIBRARY] && Records(h, LIBRARY, PLAIN, k, row);
  }

  // ------------------------------------------------------------------ over the tables

  lemma SettlingIsStable(hash: Hash, h: PathHash, m: Mapping, f: LocalFile, k: Key, row: SourceRow, now: int)
    ensures var settled := Settled(hash, k, row, Some(f), now);
            && Settled(hash, k, settled, Some(f), now) == settled
            && (Records(h, m, f, k, settled) <==> Records(h, m, f, k, row))
  {
  }

  predicate Differs(row: SourceRow, f: LocalFile) {
    (row.canonicalSha1, row.canonicalSize) != IdentityColumns(Some(f))
  }

  /** Mapping by mapping: write the rows that differ, and refresh each one's canonical groups. */
  method ReconcileGain(store: Store, h: PathHash, mappings: seq<Mapping>, f: LocalFile, now: int)
    requires Consistent(store.hash, store.sources, store.canonical)
    modifies store
    ensures store.sources == GainSources(store.hash, h, mappings, f, old(store.sources), now)
    ensures Consistent(store.hash, store.sources, store.canonical)
  {
    ghost var base := store.sources;
    for n := 0 to |mappings|
      invariant store.sources == GainSources(store.hash, h, mappings[..n], f, base, now)
      invariant Consistent(store.hash, store.sources, store.canonical)
    {
      var rows := set k | k in store.sources && Records(h, mappings[n], f, k, store.sources[k])
          && Differs(store.sources[k], f);
      SettleRows(store, rows, f, now);
      NextMapping(store.hash, h, mappings, n, f, base, now);
      assert store.sources == GainSources(store.hash, h, mappings[..n + 1], f, base, now);
    }
    assert mappings[..|mappings|] == mappings;
  }

  function SettledRows(hash: Hash, s: Sources, rows: set<Key>, f: LocalFile, now: int): Sources {
    map k | k in s :: if k in rows then Settled(hash, k, s[k], Some(f), now) else s[k]
  }

  method SettleRows(store: Store, rows: set<Key>, f: LocalFile, now: int)
    requires Consistent(store.hash, store.sources, store.canonical) && rows <= store.sources.Keys
    modifies store
    ensures store.sources == SettledRows(store.hash, old(store.sources), rows, f, now)
    ensures Consistent(store.hash, store.sources, store.canonical)
  {
    ghost var base := store.sources;
    ghost var final := SettledRows(store.hash, base, rows, f, now);
    var todo := rows;
    while todo != {}
      invariant todo <= rows && store.sources.Keys == base.Keys
      invariant forall k | k in base :: store.sources[k] == if k in todo then base[k] else final[k]
      invariant Consistent(store.hash, store.sources, store.canonical)
      decreases todo
    {
      var k :| k in todo;
      SettleRow(store, k, Some(f), now);
      todo := todo - {k};
    }
    assert store.sources == final;
  }

  /** Settling the rows of one more mapping, those that still differ, adds that mapping. */
  lemma NextMapping(hash: Hash, h: PathHash, mappings: seq<Mapping>, n: nat, f: LocalFile, base: Sources, now: int)
    requires n < |mappings|
    ensures var s := GainSources(hash, h, mappings[..n], f, base, now);
            var rows := set k | k in s && Records(h, mappings[n], f, k, s[k]) && Differs(s[k], f);
            SettledRows(hash, s, rows, f, now) == GainSources(hash, h, mappings[..n + 1], f, base, now)
  {
    var s := GainSources(hash, h, mappings[..n], f, base, now);
    forall k | k in base
      ensures Reaches(h, mappings[..n + 1], f, k, base[k])
              <==> Reaches(h, mappings[..n], f, k, base[k]) || Records(h, mappings[n], f, k, base[k])
      ensures Records(h, mappings[n], f, k, s[k]) <==> Records(h, mappings[n], f, k, base[k])
    {
      assert mappings[..n + 1] == mappings[..n] + [mappings[n]];
      if Reaches(h, mappings[..n], f, k, base[k]) {
        var m :| m in mappings[..n] && Records(h, m, f, k, base[k]);
        assert m in mappings[..n + 1];
      }
      if Records(h, mappings[n], f, k, base[k]) { assert mappings[n] in mappings[..n + 1]; }
      SettlingIsStable(hash, h, mappings[n], f, k, base[k], now);
    }
  }
}
