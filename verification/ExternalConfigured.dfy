/**
 What configuration validation buys. Prefixes are absolute and do not overlap, so at most
 one mapping concerns a row, and the loss reconcile can only differ from a full one over a
 file name with white space around it.
 */
module ExternalConfigured {
  import opened Wrappers
  import opened GalleryRows
  import opened CatalogTables
  import opened CanonicalAssets
  import opened Text
  import opened CleanPaths
  import opened ExternalPaths
  import opened ExternalIdentity
  import opened ExternalPrecedence

  function Prefix(m: Mapping): string {
    Normalize(m.prefix)
  }

  predicate BelowRoot(p: string) {
    Rooted(p) && p != "/"
  }

  predicate Overlap(p: string, q: string) {
    p == q || q + "/" <= p || p + "/" <= q
  }

  predicate Compatible(m: Mapping, m': Mapping) {
    m.immich == m'.immich ==> !Overlap(Prefix(m), Prefix(m'))
  }

  /** Every prefix is absolute and not the root, and no two of one Immich source are equal or nested. */
  predicate Accepted(mappings: seq<Mapping>) {
    && (forall m | m in mappings :: BelowRoot(Prefix(m)))
    && (forall i, j | 0 <= i < j < |mappings| :: Compatible(mappings[i], mappings[j]))
  }

  datatype MappingError = NotAbsolute(at: nat) | Overlapping(at: nat, with: nat)

  /** Validation takes the mappings one by one and refuses the first that does not fit the ones before it. */
  method Validate(mappings: seq<Mapping>) returns (r: Option<MappingError>)
    ensures r.None? <==> Accepted(mappings)
    ensures r.Some? ==> r.value.at < |mappings| && Accepted(mappings[..r.value.at])
    ensures r.Some? && r.value.NotAbsolute? ==> !BelowRoot(Prefix(mappings[r.value.at]))
    ensures r.Some? && r.value.Overlapping? ==>
              r.value.with < r.value.at && !Compatible(mappings[r.value.with], mappings[r.value.at])
  {
    for j := 0 to |mappings|
      invariant Accepted(mappings[..j])
    {
      if !BelowRoot(Prefix(mappings[j])) {
        return Some(NotAbsolute(j));
      }
      var i := FindOverlap(mappings[..j], mappings[j]);
      if i.Some? {
        return Some(Overlapping(j, i.value));
      }
      AcceptedNext(mappings, j);
    }
    assert mappings[..|mappings|] == mappings;
    r := None;
  }

  method FindOverlap(existing: seq<Mapping>, m: Mapping) returns (at: Option<nat>)
    ensures at.None? ==> forall i | 0 <= i < |existing| :: Compatible(existing[i], m)
    ensures at.Some? ==> at.value < |existing| && !Compatible(existing[at.value], m)
  {
    for i := 0 to |existing|
      invariant forall a | 0 <= a < i :: Compatible(existing[a], m)
    {
      if !Compatible(existing[i], m) {
        return Some(i);
      }
    }
    at := None;
  }

  lemma AcceptedNext(mappings: seq<Mapping>, j: nat)
    requires j < |mappings| && Accepted(mappings[..j]) && BelowRoot(Prefix(mappings[j]))
    requires forall i | 0 <= i < j :: Compatible(mappings[..j][i], mappings[j])
    ensures Accepted(mappings[..j + 1])
  {
    var next := mappings[..j + 1];
    assert next == mappings[..j] + [mappings[j]];
    forall a, b | 0 <= a < b < |next| ensures Compatible(next[a], next[b]) {
      assert next[a] == mappings[..j][a];
      if b < j { assert next[b] == mappings[..j][b]; }
    }
  }

  // -------------------------------------------------------------- one mapping, one file

  /** Active files of one Local root differ in their trimmed paths. */
  predicate Distinct(files: seq<LocalFile>) {
    forall i, j | 0 <= i < j < |files| && SamePlace(files[i], files[j]) :: !(files[i].active && files[j].active)
  }

  predicate SamePlace(f: LocalFile, g: LocalFile) {
    f.source == g.source && f.root == g.root && Trim(f.path) == Trim(g.path)
  }

  /** At most one accepted mapping of an Immich source has a given path below its prefix. */
  lemma PrefixesApart(mappings: seq<Mapping>, m: Mapping, m': Mapping, original: string)
    requires Accepted(mappings) && m in mappings && m' in mappings && m.immich == m'.immich
    requires Prefix(m) + "/" <= original && Prefix(m') + "/" <= original
    ensures m == m'
  {
    var i: nat :| i < |mappings| && mappings[i] == m;
    var j: nat :| j < |mappings| && mappings[j] == m';
    assert Overlap(Prefix(m), Prefix(m')) by {
      NestedPrefixes(Prefix(m), Prefix(m'), original);
    }
    assert i < j ==> Compatible(mappings[i], mappings[j]);
    assert j < i ==> Compatible(mappings[j], mappings[i]);
  }

  lemma NestedPrefixes(p: string, q: string, original: string)
    requires p + "/" <= original && q + "/" <= original
    ensures Overlap(p, q)
  {
    assert p == original[..|p|] && q == original[..|q|];
    assert original[..|p| + 1] == p + "/" && original[..|q| + 1] == q + "/";
    if |p| < |q| {
      assert q[..|p| + 1] == original[..|p| + 1];
    } else if |q| < |p| {
      assert p[..|q| + 1] == original[..|q| + 1];
    }
  }

  /** The original path a mapping gives a file: below the prefix, and its own normal form. */
  lemma AcceptedOriginal(m: Mapping, path: string)
    requires BelowRoot(Prefix(m)) && OriginalPath(m.prefix, path).Some?
    ensures var original := OriginalPath(m.prefix, path).value;
            && original == Prefix(m) + "/" + Trim(path)
            && Prefix(m) + "/" <= original && original[|Prefix(m)| + 1..] == Trim(path)
            && Normalize(original) == original && Trim(original) == original
  {
    OriginalIsNormal(m.prefix, path);
    var p, r := Prefix(m), Trim(path);
    assert p + "/" + r == (p + "/") + r;
  }

  /** Two records of one row come from one mapping and from one trimmed path. */
  lemma OneMapping(
      h: PathHash, mappings: seq<Mapping>, m: Mapping, f: LocalFile, m': Mapping, f': LocalFile, k: Key, row: SourceRow)
    requires Injective(h) && Accepted(mappings) && m in mappings && m' in mappings
    requires Records(h, m, f, k, row) && Records(h, m', f', k, row)
    ensures m == m' && SamePlace(f, f')
  {
    AcceptedOriginal(m, f.path);
    AcceptedOriginal(m', f'.path);
    var original := OriginalPath(m.prefix, f.path).value;
    assert original == OriginalPath(m'.prefix, f'.path).value;
    PrefixesApart(mappings, m, m', original);
  }

  lemma OneFile(files: seq<LocalFile>, f: LocalFile, f': LocalFile)
    requires Distinct(files) && f in files && f' in files && f.active && f'.active && SamePlace(f, f')
    ensures f == f'
  {
    var i: nat :| i < |files| && files[i] == f;
    var j: nat :| j < |files| && files[j] == f';
  }

  /** So a full reconcile wants the one file that matches the row, if there is one. */
  lemma DesiredIsTheMatch(
      h: PathHash, files: seq<LocalFile>, mappings: seq<Mapping>, m: Mapping, f: LocalFile, k: Key, row: SourceRow)
    requires Injective(h) && Accepted(mappings) && Distinct(files)
    requires m in mappings && f in files && Records(h, m, f, k, row)
    ensures Desired(h, files, mappings, k, row) == Some(f)
  {
    var q, choice := Recording(h, k, row), Desired(h, files, mappings, k, row);
    DesiredIsLastRecorded(h, files, mappings, k, row);
    var j: nat :| j < |mappings| && mappings[j] == m;
    var i: nat :| i < |files| && files[i] == f;
    assert Picks(files, mappings, q, j, i);
    var j': nat, i': nat :| IsLastPick(files, mappings, q, j', i') && files[i'] == choice.value;
    OneMapping(h, mappings, m, f, mappings[j'], files[i'], k, row);
    OneFile(files, f, files[i']);
  }

  predicate Matched(h: PathHash, files: seq<LocalFile>, mappings: seq<Mapping>, k: Key, row: SourceRow) {
    exists m, f :: m in mappings && f in files && Records(h, m, f, k, row)
  }

  lemma UnmatchedWantsNone(h: PathHash, files: seq<LocalFile>, mappings: seq<Mapping>, k: Key, row: SourceRow)
    requires !Matched(h, files, mappings, k, row)
    ensures Desired(h, files, mappings, k, row) == None
  {
    DesiredIsLastRecorded(h, files, mappings, k, row);
  }

  // ------------------------------------------------------------------------ the loss

  /** No file that matches the row has white space around its path. */
  predicate TrimmedMatches(h: PathHash, files: seq<LocalFile>, mappings: seq<Mapping>, k: Key, row: SourceRow) {
    forall m, f | m in mappings && f in files && Records(h, m, f, k, row) :: Trim(f.path) == f.path
  }

  /** What serves a hit row is recorded for it, by the mapping that made the hit. */
  lemma ServedIsRecorded(
      h: PathHash, mappings: seq<Mapping>, hit: Mapping, source: int, root: int, path: string,
      m: Mapping, f: LocalFile, k: Key, row: SourceRow)
    requires Injective(h) && Accepted(mappings) && hit in mappings && m in mappings
    requires Hits(h, hit, source, root, path, k, row)
    requires Serves(m, f, k, row, OriginalPath(hit.prefix, path).value)
    ensures Records(h, m, f, k, row) && Trim(f.path) == f.path
  {
    var original := OriginalPath(hit.prefix, path).value;
    AcceptedOriginal(hit, path);
    PrefixesApart(mappings, hit, m, original);
    assert f.path == Trim(path);
    RecordsIffServes(h, m, f, k, row, original);
  }

  /**
   For a hit row the loss reconcile's replacement is the file the full one wants, unless that
   file has white space around its path: then the loss reconcile finds none.
   */
  lemma ReplacementIsDesired(
      h: PathHash, files: seq<LocalFile>, mappings: seq<Mapping>, hit: Mapping, source: int, root: int, path: string,
      k: Key, row: SourceRow)
    requires Injective(h) && Accepted(mappings) && hit in mappings && Hits(h, hit, source, root, path, k, row)
    ensures var original := OriginalPath(hit.prefix, path).value;
            var replacement := Replacement(files, mappings, k, row, original);
            var desired := Desired(h, files, mappings, k, row);
            && (TrimmedMatches(h, files, mappings, k, row) ==> replacement == desired)
            && (Distinct(files) && !TrimmedMatches(h, files, mappings, k, row) ==> replacement.None? && desired.Some?)
  {
    var original := OriginalPath(hit.prefix, path).value;
    AcceptedOriginal(hit, path);
    if TrimmedMatches(h, files, mappings, k, row) {
      SameChoices(h, files, mappings, hit, source, root, path, k, row);
    } else if Distinct(files) {
      var m, f :| m in mappings && f in files && Records(h, m, f, k, row) && Trim(f.path) != f.path;
      DesiredIsTheMatch(h, files, mappings, m, f, k, row);
      ReplacementIsLastServed(files, mappings, k, row, original);
      var choice := Replacement(files, mappings, k, row, original);
      if choice.Some? {
        var j: nat, i: nat :|
          IsLastPick(files, mappings, Serving(k, row, original), j, i) && files[i] == choice.value;
        ServedIsRecorded(h, mappings, hit, source, root, path, mappings[j], files[i], k, row);
        DesiredIsTheMatch(h, files, mappings, mappings[j], files[i], k, row);
        assert false;
      }
    }
  }

  lemma RecordedIsServed(
      h: PathHash, mappings: seq<Mapping>, hit: Mapping, source: int, root: int, path: string,
      m: Mapping, f: LocalFile, k: Key, row: SourceRow)
    requires Injective(h) && Accepted(mappings) && hit in mappings && m in mappings
    requires Hits(h, hit, source, root, path, k, row)
    requires Records(h, m, f, k, row) && Trim(f.path) == f.path
    ensures Serves(m, f, k, row, OriginalPath(hit.prefix, path).value)
  {
    var original := OriginalPath(hit.prefix, path).value;
    AcceptedOriginal(hit, path);
    AcceptedOriginal(m, f.path);
    RecordsIffServes(h, m, f, k, row, original);
  }

  lemma SameChoices(
      h: PathHash, files: seq<LocalFile>, mappings: seq<Mapping>, hit: Mapping, source: int, root: int, path: string,
      k: Key, row: SourceRow)
    requires Injective(h) && Accepted(mappings) && hit in mappings && Hits(h, hit, source, root, path, k, row)
    requires TrimmedMatches(h, files, mappings, k, row)
    ensures Replacement(files, mappings, k, row, OriginalPath(hit.prefix, path).value)
            == Desired(h, files, mappings, k, row)
  {
    var original := OriginalPath(hit.prefix, path).value;
    forall i | 0 <= i < |mappings|
      ensures FullPick(h, files, k, row)(mappings[i]) == LossPick(files, k, row, original)(mappings[i])
    {
      var m := mappings[i];
      forall j | 0 <= j < |files|
        ensures RecordedBy(h, m, k, row)(files[j]) <==> ServedBy(m, k, row, original)(files[j])
      {
        if Serves(m, files[j], k, row, original) {
          ServedIsRecorded(h, mappings, hit, source, root, path, m, files[j], k, row);
        } else if Records(h, m, files[j], k, row) {
          RecordedIsServed(h, mappings, hit, source, root, path, m, files[j], k, row);
        }
      }
      SameWinner(files, RecordedBy(h, m, k, row), ServedBy(m, k, row, original));
    }
    SameResolution(mappings, FullPick(h, files, k, row), LossPick(files, k, row, original));
  }

  predicate TrimmedHits(
      h: PathHash, files: seq<LocalFile>, mappings: seq<Mapping>, source: int, root: int, paths: seq<string>,
      s: Sources)
  {
    forall k | k in s && HitPath(h, mappings, source, root, paths, k, s[k]).Some? ::
      TrimmedMatches(h, files, mappings, k, s[k])
  }

  /**
   Under an accepted configuration the loss reconcile is a full reconcile when the files that
   match a hit row have no white space around their paths, and, where trimmed paths are
   distinct, only then.
   */
  lemma LossEqualsFull(
    hash: Hash, h: PathHash, before: seq<LocalFile>, after: seq<LocalFile>, mappings: seq<Mapping>,
    source: int, root: int, paths: seq<string>, s: Sources, now: int)
    requires Injective(h) && Accepted(mappings)
    requires Reconciled(h, before, mappings, s) && OnlyLost(before, after, source, root, paths)
    ensures var agrees := LossSources(hash, h, after, mappings, source, root, paths, s, now)
                          == FullSources(hash, h, after, mappings, s, now);
            && (TrimmedHits(h, after, mappings, source, root, paths, s) ==> agrees)
            && (Distinct(after) && agrees ==> TrimmedHits(h, after, mappings, source, root, paths, s))
  {
    forall k | k in s && HitPath(h, mappings, source, root, paths, k, s[k]).Some?
      ensures TrimmedMatches(h, after, mappings, k, s[k]) ==>
                SameLastForHit(h, after, mappings, source, root, paths, k, s[k])
      ensures Distinct(after) && SameLastForHit(h, after, mappings, source, root, paths, k, s[k]) ==>
                TrimmedMatches(h, after, mappings, k, s[k])
    {
      var original := HitPath(h, mappings, source, root, paths, k, s[k]).value;
      HitPathIsHit(h, mappings, source, root, paths, k, s[k]);
      var path :| path in paths && ReachesBy(h, mappings, source, root, path, k, s[k], original);
      var m :| m in mappings && Hits(h, m, source, root, path, k, s[k])
            && OriginalPath(m.prefix, path).value == original;
      ReplacementIsDesired(h, after, mappings, m, source, root, path, k, s[k]);
      HitSettlesAlikeIff(hash, h, after, mappings, k, s[k], original, now);
      SettledAlikeIff(hash, k, s[k], Replacement(after, mappings, k, s[k], original),
                      Desired(h, after, mappings, k, s[k]), now);
    }
    LossEqualsFullIff(hash, h, before, after, mappings, source, root, paths, s, now);
  }

  /** And exactly then every mapped row has its desired identity again. */
  lemma LossReconciles(
    hash: Hash, h: PathHash, before: seq<LocalFile>, after: seq<LocalFile>, mappings: seq<Mapping>,
    source: int, root: int, paths: seq<string>, s: Sources, now: int)
    requires Injective(h) && Accepted(mappings)
    requires Reconciled(h, before, mappings, s) && OnlyLost(before, after, source, root, paths)
    ensures var loss := LossSources(hash, h, after, mappings, source, root, paths, s, now);
            var again := Reconciled(h, after, mappings, loss);
            && (TrimmedHits(h, after, mappings, source, root, paths, s) ==> again)
            && (Distinct(after) && again ==> TrimmedHits(h, after, mappings, source, root, paths, s))
  {
    LossEqualsFull(hash, h, before, after, mappings, source, root, paths, s, now);
    LossEqualsFullIff(hash, h, before, after, mappings, source, root, paths, s, now);
    LossReconcilesIff(hash, h, before, after, mappings, source, root, paths, s, now);
  }

  // --------------------------------------------------------------- a row they disagree on

  const LIBRARY := Mapping(1, 2, 0, "/p")
  const SPACED := LocalFile(7, 2, 0, " a.jpg", true, 10, 100, Image)
  const PLAIN := LocalFile(8, 2, 0, "a.jpg", true, 20, 200, Image)

  /** An Immich row of "/p/a.jpg" with a borrowed identity. */
  function RowOfName(h: PathHash, sha1: nat, size: int): SourceRow {
    SourceRow(Immich, None, Sha1Path, Some(ShaText(PathChecksum(h, "/p/a.jpg"), 0)), None, Some(ShaText(sha1, sha1)),
              Some(size), Image, "", 0, None, Active, false, None, None, 0, 0)
  }

  lemma LibraryIsAccepted()
    ensures Accepted([LIBRARY])
  {
    NormalLibrary();
    assert "/p"[0] == '/' && |"/p"| == 2;
  }

  /**
   Two files whose names differ in a leading space. When the plain one is lost, the full
   reconcile falls back on the other one, and the loss reconcile finds none.
   */
  lemma LossCanDisagree(hash: Hash, h: PathHash, now: int)
    ensures var k, row := Key(1, 1), RowOfName(h, 20, 200);
            var s := map[k := row];
            var before, after := [SPACED, PLAIN], [SPACED, PLAIN.(active := false)];
            && Accepted([LIBRARY]) && Distinct(after)
            && Reconciled(h, before, [LIBRARY], s) && OnlyLost(before, after, 2, 0, ["a.jpg"])
            && LossSources(hash, h, after, [LIBRARY], 2, 0, ["a.jpg"], s, now)[k].canonicalSize == None
            && FullSources(hash, h, after, [LIBRARY], s, now)[k].canonicalSize == Some(100)
  {
    LibraryIsAccepted();
    LosingPlain(h, RowOfName(h, 20, 200));
    PlainServedFirst(hash, h, now);
    SpacedIsLeft(hash, h, now);
  }

  lemma PlainServedFirst(hash: Hash, h: PathHash, now: int)
    ensures Reconciled(h, [SPACED, PLAIN], [LIBRARY], map[Key(1, 1) := RowOfName(h, 20, 200)])
  {
    var k, row := Key(1, 1), RowOfName(h, 20, 200);
    FilesOfName(h, row);
    ChoicesOfTwo(h, PLAIN, k, row);
    OneRow(hash, h, [SPACED, PLAIN], [LIBRARY], k, row, now);
  }

  lemma SpacedIsLeft(hash: Hash, h: PathHash, now: int)
    ensures var k, row := Key(1, 1), RowOfName(h, 20, 200);
            var s, after := map[k := row], [SPACED, PLAIN.(active := false)];
            && LossSources(hash, h, after, [LIBRARY], 2, 0, ["a.jpg"], s, now)[k].canonicalSize == None
            && FullSources(hash, h, after, [LIBRARY], s, now)[k].canonicalSize == Some(100)
  {
    var k, row, after := Key(1, 1), RowOfName(h, 20, 200), [SPACED, PLAIN.(active := false)];
    FilesOfName(h, row);
    LosingPlain(h, row);
    ChoicesOfTwo(h, PLAIN.(active := false), k, row);
    OneRow(hash, h, after, [LIBRARY], k, row, now);
    OneRowLoss(hash, h, after, [LIBRARY], ["a.jpg"], k, row, now);
  }

  /** What the reconcilers leave of a table with one row, seen through its size column. */
  lemma OneRow(
      hash: Hash, h: PathHash, files: seq<LocalFile>, mappings: seq<Mapping>, k: Key, row: SourceRow, now: int)
    requires PathMapped(row)
    ensures var desired := Desired(h, files, mappings, k, row);
            && (Reconciled(h, files, mappings, map[k := row])
                <==> (row.canonicalSha1, row.canonicalSize) == IdentityColumns(desired))
            && FullSources(hash, h, files, mappings, map[k := row], now)[k].canonicalSize == IdentityColumns(desired).1
  {
    var s := map[k := row];
    if Reconciled(h, files, mappings, s) { assert k in s && s[k] == row; }
  }

  lemma OneRowLoss(
      hash: Hash, h: PathHash, files: seq<LocalFile>, mappings: seq<Mapping>, paths: seq<string>,
      k: Key, row: SourceRow, now: int)
    requires HitPath(h, mappings, 2, 0, paths, k, row).Some?
    ensures var replacement := Replacement(files, mappings, k, row, HitPath(h, mappings, 2, 0, paths, k, row).value);
            LossSources(hash, h, files, mappings, 2, 0, paths, map[k := row], now)[k].canonicalSize
            == IdentityColumns(replacement).1
  {
  }

  ghost predicate IsRowOfName(h: PathHash, row: SourceRow) {
    exists sha1: nat, size :: row == RowOfName(h, sha1, size)
  }

  lemma FilesOfName(h: PathHash, row: SourceRow)
    requires IsRowOfName(h, row)
    ensures Records(h, LIBRARY, SPACED, Key(1, 1), row) && Records(h, LIBRARY, PLAIN, Key(1, 1), row)
    ensures RelativePath("/p/a.jpg", "/p") == Some("a.jpg")
  {
    OriginalsOfName();
  }

  lemma LosingPlain(h: PathHash, row: SourceRow)
    requires IsRowOfName(h, row)
    ensures OnlyLost([SPACED, PLAIN], [SPACED, PLAIN.(active := false)], 2, 0, ["a.jpg"])
    ensures HitPath(h, [LIBRARY], 2, 0, ["a.jpg"], Key(1, 1), row) == Some("/p/a.jpg")
  {
    ElsewhereOfSpaced(PLAIN);
    ElsewhereOfSpaced(PLAIN.(active := false));
    HitByName(h, row);
  }

  lemma HitByName(h: PathHash, row: SourceRow)
    requires IsRowOfName(h, row)
    ensures HitPath(h, [LIBRARY], 2, 0, ["a.jpg"], Key(1, 1), row) == Some("/p/a.jpg")
  {
    OriginalsOfName();
    assert ["a.jpg"][..0] == [] && [LIBRARY][..0] == [];
  }

  lemma ChoicesOfTwo(h: PathHash, last: LocalFile, k: Key, row: SourceRow)
    requires last == PLAIN || last == PLAIN.(active := false)
    requires Records(h, LIBRARY, SPACED, k, row) && (last.active ==> Records(h, LIBRARY, last, k, row))
    requires RelativePath("/p/a.jpg", "/p") == Some("a.jpg") && row.media == Image
    ensures Desired(h, [SPACED, last], [LIBRARY], k, row) == Some(if last.active then last else SPACED)
    ensures !last.active ==> Replacement([SPACED, last], [LIBRARY], k, row, "/p/a.jpg") == None
  {
    var files := [SPACED, last];
    assert files[..1] == [SPACED] && [SPACED][..0] == [] && [LIBRARY][..0] == [];
    SingleResolution(LIBRARY, FullPick(h, files, k, row));
    SingleResolution(LIBRARY, LossPick(files, k, row, "/p/a.jpg"));
    SingleWinner(SPACED, RecordedBy(h, LIBRARY, k, row));
    SingleWinner(SPACED, ServedBy(LIBRARY, k, row, "/p/a.jpg"));
  }

  lemma ElsewhereOfSpaced(last: LocalFile)
    requires last.source == 2 && last.root == 0 && last.path == "a.jpg"
    ensures Elsewhere([SPACED, last], 2, 0, ["a.jpg"]) == [SPACED]
    ensures Elsewhere([last, SPACED], 2, 0, ["a.jpg"]) == [SPACED]
  {
    assert [SPACED, last][..1] == [SPACED] && [SPACED][..0] == [] && [last, SPACED][..1] == [last] && [last][..0] == [];
    assert SPACED.path !in ["a.jpg"] by { assert |SPACED.path| == 6; }
    assert !At(SPACED, 2, 0, ["a.jpg"]) && At(last, 2, 0, ["a.jpg"]);
    assert Elsewhere([SPACED], 2, 0, ["a.jpg"]) == [SPACED];
    assert Elsewhere([last], 2, 0, ["a.jpg"]) == [];
  }
}
