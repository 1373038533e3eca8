/**
 Which Local file decides a row: the reconcilers' loops mean "the last mapping wins, and for
 it the highest location ID". Said by pairs of a mapping and a file, this gives the exact
 condition under which the loss reconcile is a full reconcile.
 */
module ExternalPrecedence {
  import opened Wrappers
  import opened GalleryRows
  import opened CatalogTables
  import opened CanonicalAssets
  import opened ExternalPaths
  import opened ExternalIdentity

  type Match = (Mapping, LocalFile) -> bool

  /** The pair of the j-th mapping and the i-th file matches. */
  predicate Picks(files: seq<LocalFile>, mappings: seq<Mapping>, q: Match, j: nat, i: nat) {
    j < |mappings| && i < |files| && q(mappings[j], files[i])
  }

  /** A later mapping, or the same mapping and a higher location ID. */
  predicate Later(j: nat, i: nat, j': nat, i': nat) {
    j' > j || (j' == j && i' > i)
  }

  ghost predicate IsLastPick(files: seq<LocalFile>, mappings: seq<Mapping>, q: Match, j: nat, i: nat) {
    && Picks(files, mappings, q, j, i)
    && forall j': nat, i': nat | Picks(files, mappings, q, j', i') :: !Later(j, i, j', i')
  }

  predicate IsLastFile(files: seq<LocalFile>, m: Mapping, q: Match, i: nat) {
    i < |files| && q(m, files[i]) && forall i' | i < i' < |files| :: !q(m, files[i'])
  }

  /** The choice of one mapping is its last matching file. */
  ghost predicate PicksLast(files: seq<LocalFile>, q: Match, m: Mapping, choice: Option<LocalFile>) {
    && (choice.None? ==> forall i | 0 <= i < |files| :: !q(m, files[i]))
    && (choice.Some? ==> exists i: nat :: IsLastFile(files, m, q, i) && files[i] == choice.value)
  }

  /** The highest location ID wins. */
  lemma {:induction false} WinnerIsLastFile(files: seq<LocalFile>, p: LocalFile -> bool, q: Match, m: Mapping)
    requires forall f :: p(f) <==> q(m, f)
    ensures PicksLast(files, q, m, Winner(files, p))
  {
    if files != [] {
      var n := |files| - 1;
      if p(files[n]) {
        assert IsLastFile(files, m, q, n);
      } else {
        WinnerIsLastFile(files[..n], p, q, m);
        var choice := Winner(files[..n], p);
        if choice.Some? {
          var i: nat :| IsLastFile(files[..n], m, q, i) && files[..n][i] == choice.value;
          assert IsLastFile(files, m, q, i);
        } else {
          forall i | 0 <= i < |files| ensures !q(m, files[i]) {
            if i < n { assert files[i] == files[..n][i]; }
          }
        }
      }
    }
  }

  /** The last mapping with a match wins. */
  lemma {:induction false} ResolveIsLastPick(
      files: seq<LocalFile>, mappings: seq<Mapping>, q: Match, pick: Mapping -> Option<LocalFile>)
    requires forall m | m in mappings :: PicksLast(files, q, m, pick(m))
    ensures var choice := Resolve(mappings, pick);
            && (choice.None? ==> forall j: nat, i: nat :: !Picks(files, mappings, q, j, i))
            && (choice.Some? ==>
                exists j: nat, i: nat :: IsLastPick(files, mappings, q, j, i) && files[i] == choice.value)
  {
    if mappings != [] {
      var n := |mappings| - 1;
      var front, last := mappings[..n], mappings[n];
      assert last in mappings && mappings == front + [last];
      if pick(last).Some? {
        var i: nat :| IsLastFile(files, last, q, i) && files[i] == pick(last).value;
        assert IsLastPick(files, mappings, q, n, i);
      } else {
        ResolveIsLastPick(files, front, q, pick);
        forall j: nat, i: nat ensures Picks(files, mappings, q, j, i) <==> Picks(files, front, q, j, i) {
          if j < n { assert mappings[j] == front[j]; }
        }
        var choice := Resolve(front, pick);
        if choice.Some? {
          var j: nat, i: nat :| IsLastPick(files, front, q, j, i) && files[i] == choice.value;
          assert IsLastPick(files, mappings, q, j, i);
        }
      }
    }
  }

  // ------------------------------------------------------------- the two reconcilers

  /** The pairs the full reconcile records for a row. */
  function Recording(h: PathHash, k: Key, row: SourceRow): Match {
    (m: Mapping, f: LocalFile) => Records(h, m, f, k, row)
  }

  /** The pairs the loss reconcile finds for a row known by its original path. */
  function Serving(k: Key, row: SourceRow, original: string): Match {
    (m: Mapping, f: LocalFile) => Serves(m, f, k, row, original)
  }

  predicate SameContent(f: LocalFile, g: LocalFile) {
    f.sha1 == g.sha1 && f.size == g.size
  }

  lemma DesiredIsLastRecorded(h: PathHash, files: seq<LocalFile>, mappings: seq<Mapping>, k: Key, row: SourceRow)
    ensures var q, choice := Recording(h, k, row), Desired(h, files, mappings, k, row);
            && (choice.None? ==> forall j: nat, i: nat :: !Picks(files, mappings, q, j, i))
            && (choice.Some? ==>
                exists j: nat, i: nat :: IsLastPick(files, mappings, q, j, i) && files[i] == choice.value)
  {
    forall m | m in mappings ensures PicksLast(files, Recording(h, k, row), m, FullPick(h, files, k, row)(m)) {
      WinnerIsLastFile(files, RecordedBy(h, m, k, row), Recording(h, k, row), m);
    }
    ResolveIsLastPick(files, mappings, Recording(h, k, row), FullPick(h, files, k, row));
  }

  lemma ReplacementIsLastServed(files: seq<LocalFile>, mappings: seq<Mapping>, k: Key, row: SourceRow, original: string)
    ensures var q, choice := Serving(k, row, original), Replacement(files, mappings, k, row, original);
            && (choice.None? ==> forall j: nat, i: nat :: !Picks(files, mappings, q, j, i))
            && (choice.Some? ==>
                exists j: nat, i: nat :: IsLastPick(files, mappings, q, j, i) && files[i] == choice.value)
  {
    forall m | m in mappings
        ensures PicksLast(files, Serving(k, row, original), m, LossPick(files, k, row, original)(m)) {
      WinnerIsLastFile(files, ServedBy(m, k, row, original), Serving(k, row, original), m);
    }
    ResolveIsLastPick(files, mappings, Serving(k, row, original), LossPick(files, k, row, original));
  }

  lemma LastPickUnique(files: seq<LocalFile>, mappings: seq<Mapping>, q: Match, j: nat, i: nat, j': nat, i': nat)
    requires IsLastPick(files, mappings, q, j, i) && IsLastPick(files, mappings, q, j', i')
    ensures j == j' && i == i'
  {
    assert !Later(j, i, j', i') && !Later(j', i', j, i);
  }

  // --------------------------------------------------- when a loss is a full reconcile

  /** The last pair matched by checksum and the last pair matched by path have one content, or there is neither. */
  ghost predicate SameLast(files: seq<LocalFile>, mappings: seq<Mapping>, recorded: Match, served: Match) {
    && (forall j: nat, i: nat, j': nat, i': nat |
          IsLastPick(files, mappings, recorded, j, i) && IsLastPick(files, mappings, served, j', i') ::
          SameContent(files[i], files[i']))
    && ((exists j: nat, i: nat :: Picks(files, mappings, recorded, j, i))
        <==> (exists j: nat, i: nat :: Picks(files, mappings, served, j, i)))
  }

  lemma HitSettlesAlikeIff(
    hash: Hash, h: PathHash, files: seq<LocalFile>, mappings: seq<Mapping>, k: Key, row: SourceRow, original: string,
        now: int)
    ensures var loss, full := Replacement(files, mappings, k, row, original), Desired(h, files, mappings, k, row);
            Settled(hash, k, row, loss, now) == Settled(hash, k, row, full, now)
            <==> SameLast(files, mappings, Recording(h, k, row), Serving(k, row, original))
  {
    var recorded, served := Recording(h, k, row), Serving(k, row, original);
    var desired, replacement := Desired(h, files, mappings, k, row), Replacement(files, mappings, k, row, original);
    DesiredIsLastRecorded(h, files, mappings, k, row);
    ReplacementIsLastServed(files, mappings, k, row, original);
    SettledAlikeIff(hash, k, row, replacement, desired, now);
    if desired.Some? && replacement.Some? {
      var j: nat, i: nat :| IsLastPick(files, mappings, recorded, j, i) && files[i] == desired.value;
      var j': nat, i': nat :| IsLastPick(files, mappings, served, j', i') && files[i'] == replacement.value;
      forall a: nat, b: nat, a': nat, b': nat
        | IsLastPick(files, mappings, recorded, a, b) && IsLastPick(files, mappings, served, a', b')
        ensures b == i && b' == i'
      {
        LastPickUnique(files, mappings, recorded, a, b, j, i);
        LastPickUnique(files, mappings, served, a', b', j', i');
      }
    }
  }

  /** Rows are settled alike exactly when both choices have one content. */
  lemma SettledAlikeIff(hash: Hash, k: Key, row: SourceRow, f: Option<LocalFile>, g: Option<LocalFile>, now: int)
    ensures Settled(hash, k, row, f, now) == Settled(hash, k, row, g, now)
            <==> f.Some? == g.Some? && (f.Some? ==> SameContent(f.value, g.value))
  {
  }

  /** For each hit row, the last pair matched by checksum and the last one matched by path have one content. */
  ghost predicate SameLastPerHit(
    h: PathHash, after: seq<LocalFile>, mappings: seq<Mapping>, source: int, root: int, paths: seq<string>, s: Sources)
  {
    forall k | k in s && HitPath(h, mappings, source, root, paths, k, s[k]).Some? ::
      SameLastForHit(h, after, mappings, source, root, paths, k, s[k])
  }

  ghost predicate SameLastForHit(
    h: PathHash, after: seq<LocalFile>, mappings: seq<Mapping>, source: int, root: int, paths: seq<string>,
    k: Key, row: SourceRow)
    requires HitPath(h, mappings, source, root, paths, k, row).Some?
  {
    var original := HitPath(h, mappings, source, root, paths, k, row).value;
    SameLast(after, mappings, Recording(h, k, row), Serving(k, row, original))
  }

  /** For any files and mappings the loss reconcile is a full one if and only if the hit rows' last pairs agree. */
  lemma LossEqualsFullIff(
    hash: Hash, h: PathHash, before: seq<LocalFile>, after: seq<LocalFile>, mappings: seq<Mapping>,
    source: int, root: int, paths: seq<string>, s: Sources, now: int)
    requires Reconciled(h, before, mappings, s) && OnlyLost(before, after, source, root, paths)
    ensures LossSources(hash, h, after, mappings, source, root, paths, s, now)
            == FullSources(hash, h, after, mappings, s, now)
            <==> SameLastPerHit(h, after, mappings, source, root, paths, s)
  {
    var loss := LossSources(hash, h, after, mappings, source, root, paths, s, now);
    var full := FullSources(hash, h, after, mappings, s, now);
    forall k | k in s
      ensures loss[k] == full[k]
              <==> (HitPath(h, mappings, source, root, paths, k, s[k]).Some? ==>
                      SameLastForHit(h, after, mappings, source, root, paths, k, s[k]))
    {
      HitPathIsHit(h, mappings, source, root, paths, k, s[k]);
      var original := HitPath(h, mappings, source, root, paths, k, s[k]);
      if original.Some? {
        HitSettlesAlikeIff(hash, h, after, mappings, k, s[k], original.value, now);
      } else if PathMapped(s[k]) {
        UnhitKeepsDesired(h, before, after, mappings, source, root, paths, k, s[k]);
      }
    }
    if forall k | k in s :: loss[k] == full[k] {
      assert loss == full;
    }
  }

  /** The loss reconcile leaves every mapped row with its desired identity if and only if it is a full one. */
  lemma LossReconcilesIff(
    hash: Hash, h: PathHash, before: seq<LocalFile>, after: seq<LocalFile>, mappings: seq<Mapping>,
    source: int, root: int, paths: seq<string>, s: Sources, now: int)
    requires Reconciled(h, before, mappings, s) && OnlyLost(before, after, source, root, paths)
    ensures Reconciled(h, after, mappings, LossSources(hash, h, after, mappings, source, root, paths, s, now))
            <==> SameLastPerHit(h, after, mappings, source, root, paths, s)
  {
    var loss := LossSources(hash, h, after, mappings, source, root, paths, s, now);
    var full := FullSources(hash, h, after, mappings, s, now);
    LossEqualsFullIff(hash, h, before, after, mappings, source, root, paths, s, now);
    FullReconciles(hash, h, after, mappings, s, now);
    if Reconciled(h, after, mappings, loss) {
      forall k | k in s ensures loss[k] == full[k] {
        ReconciledRowIsFull(hash, h, after, mappings, source, root, paths, s, k, now);
      }
      assert loss == full;
    }
  }

  lemma ReconciledRowIsFull(
    hash: Hash, h: PathHash, files: seq<LocalFile>, mappings: seq<Mapping>,
    source: int, root: int, paths: seq<string>, s: Sources, k: Key, now: int)
    requires k in s
    requires Reconciled(h, files, mappings, LossSources(hash, h, files, mappings, source, root, paths, s, now))
    ensures LossSources(hash, h, files, mappings, source, root, paths, s, now)[k]
            == FullSources(hash, h, files, mappings, s, now)[k]
  {
    var loss := LossSources(hash, h, files, mappings, source, root, paths, s, now);
    HitPathIsHit(h, mappings, source, root, paths, k, s[k]);
    if PathMapped(s[k]) {
      assert k in loss && PathMapped(loss[k]);
      SettlingKeepsDesired(hash, h, files, mappings, k, s[k], loss[k]);
    }
  }

  /** What a row should have does not depend on the identity it has. */
  lemma SettlingKeepsDesired(
    hash: Hash, h: PathHash, files: seq<LocalFile>, mappings: seq<Mapping>, k: Key, row: SourceRow, settled: SourceRow)
    requires PathMapped(row) == PathMapped(settled)
    requires row.kind == settled.kind && row.media == settled.media && row.sha1 == settled.sha1
    ensures Desired(h, files, mappings, k, settled) == Desired(h, files, mappings, k, row)
  {
    forall i | 0 <= i < |mappings|
      ensures FullPick(h, files, k, settled)(mappings[i]) == FullPick(h, files, k, row)(mappings[i])
    {
      SameWinner(files, RecordedBy(h, mappings[i], k, settled), RecordedBy(h, mappings[i], k, row));
    }
    SameResolution(mappings, FullPick(h, files, k, settled), FullPick(h, files, k, row));
  }

  // ----------------------------------------------------- what borrowing an identity is for

  /** A settled row has the content of its file, whatever content it had before. */
  lemma SettledHasContent(hash: Hash, k: Key, row: SourceRow, f: LocalFile, now: int)
    requires f.sha1 > 0 && f.size > 0
    ensures HasContent(Settled(hash, k, row, Some(f), now), row.media, f.sha1, f.size)
  {
  }

  /**
   Where the rows are reconciled and the catalog is consistent, a mapped row and the Local
   source row of its file are one canonical asset.
   */
  lemma BorrowerJoinsItsFile(
    hash: Hash, h: PathHash, files: seq<LocalFile>, mappings: seq<Mapping>, s: Sources, c: Canonicals, k: Key, k': Key)
    requires Consistent(hash, s, c) && Reconciled(h, files, mappings, s)
    requires k in s && PathMapped(s[k]) && k' in s && k != k'
    requires var f := Desired(h, files, mappings, k, s[k]);
             f.Some? && f.value.size > 0 && HasContent(s[k'], f.value.media, f.value.sha1, f.value.size)
    ensures s[k].canonicalId.Some? && s[k'].canonicalId == s[k].canonicalId
    ensures s[k].canonicalId.value in c && c[s[k].canonicalId.value].sourceCount >= 2
  {
    var f := Desired(h, files, mappings, k, s[k]).value;
    DesiredIsLastRecorded(h, files, mappings, k, s[k]);
    assert HasContent(s[k], f.media, f.sha1, f.size);
    OneAssetIffSameContent(hash, s, c, k, k');
    TwoOfOneGroup(hash, s, c, k, k');
  }

  lemma TwoOfOneGroup(hash: Hash, s: Sources, c: Canonicals, k: Key, k': Key)
    requires Consistent(hash, s, c) && k in s && k' in s && k != k'
    requires s[k].canonicalId.Some? && s[k'].canonicalId == s[k].canonicalId
    ensures s[k].canonicalId.value in c && c[s[k].canonicalId.value].sourceCount >= 2
  {
    var id := s[k].canonicalId.value;
    assert RightAt(s, c, id);
    var pair := {k, k'};
    assert k in Group(s, id) && pair <= Group(s, id);
    assert Group(s, id) == pair + (Group(s, id) - pair);
    assert Core(c[id]).sourceCount == |Group(s, id)|;
  }
}
