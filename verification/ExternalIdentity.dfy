/**
 Content identities that Immich rows borrow from Local files through path mappings: the
 full reconcile, and the reconcile after Local files lost their identity, proved to agree.
 */
module ExternalIdentity {
  import opened Wrappers
  import opened GalleryRows
  import opened CatalogTables
  import opened CanonicalAssets
  import opened ExternalPaths
  import opened Text

  /** A configured external library: an Immich source whose paths below a prefix are a Local root. */
  datatype Mapping = Mapping(immich: int, local: int, root: int, prefix: string)

  /** A Local location joined with its asset; `active` says both are. `sha1` is normalized. */
  datatype LocalFile = LocalFile(
    id: int,
    source: int,
    root: int,
    path: string,
    active: bool,
    sha1: nat,
    size: int,
    media: Media
  )

  /** The hash of an original path, as text; the hashed text is trimmed. */
  type PathHash = string -> int

  function PathChecksum(h: PathHash, original: string): int {
    h(Trim(original))
  }

  ghost predicate Injective(h: PathHash) {
    forall a, b | h(a) == h(b) :: a == b
  }

  /** The last file, in ID order, that satisfies a condition. */
  function Winner(files: seq<LocalFile>, p: LocalFile -> bool): Option<LocalFile> {
    if files == [] then None
    else if p(files[|files| - 1]) then Some(files[|files| - 1])
    else Winner(files[..|files| - 1], p)
  }

  /** The last mapping that yields a file decides. */
  function Resolve(mappings: seq<Mapping>, pick: Mapping -> Option<LocalFile>): Option<LocalFile> {
    if mappings == [] then None
    else
      var last := pick(mappings[|mappings| - 1]);
      if last.Some? then last else Resolve(mappings[..|mappings| - 1], pick)
  }

  /** Rows whose identity comes from a mapping. */
  predicate PathMapped(row: SourceRow) {
    row.algorithm == Sha1Path
  }

  /** The full reconcile records `f` for this row under mapping `m`. */
  predicate Records(h: PathHash, m: Mapping, f: LocalFile, k: Key, row: SourceRow) {
    && f.source == m.local && f.root == m.root && f.active
    && k.sourceKey == m.immich && row.kind == Immich && PathMapped(row) && row.media == f.media
    && OriginalPath(m.prefix, f.path).Some?
    && row.sha1.Some? && row.sha1.value.text == PathChecksum(h, OriginalPath(m.prefix, f.path).value)
  }

  function FullPick(h: PathHash, files: seq<LocalFile>, k: Key, row: SourceRow): Mapping -> Option<LocalFile> {
    (m: Mapping) => Winner(files, RecordedBy(h, m, k, row))
  }

  function RecordedBy(h: PathHash, m: Mapping, k: Key, row: SourceRow): LocalFile -> bool {
    (f: LocalFile) => Records(h, m, f, k, row)
  }

  /** What the full reconcile wants for a row: the later mapping, then the higher location ID. */
  function Desired(
      h: PathHash, files: seq<LocalFile>, mappings: seq<Mapping>, k: Key, row: SourceRow): Option<LocalFile>
  {
    Resolve(mappings, FullPick(h, files, k, row))
  }

  /** The loss reconcile's lookup under mapping `m`, for a row known by its original path. */
  predicate Serves(m: Mapping, f: LocalFile, k: Key, row: SourceRow, original: string) {
    && k.sourceKey == m.immich
    && f.source == m.local && f.root == m.root && f.active && row.media == f.media
    && RelativePath(original, m.prefix) == Some(f.path)
  }

  function LossPick(files: seq<LocalFile>, k: Key, row: SourceRow, original: string): Mapping -> Option<LocalFile> {
    (m: Mapping) => Winner(files, ServedBy(m, k, row, original))
  }

  function ServedBy(m: Mapping, k: Key, row: SourceRow, original: string): LocalFile -> bool {
    (f: LocalFile) => Serves(m, f, k, row, original)
  }

  function Replacement(
      files: seq<LocalFile>, mappings: seq<Mapping>, k: Key, row: SourceRow, original: string): Option<LocalFile>
  {
    Resolve(mappings, LossPick(files, k, row, original))
  }

  // --------------------------------------------------------------------- the row update

  /** The identity columns for a chosen file, NULL for none. */
  function IdentityColumns(f: Option<LocalFile>): (Option<ShaText>, Option<int>) {
    if f.None? then (None, None)
    else (Some(ShaText(f.value.sha1, f.value.sha1)), Some(f.value.size))
  }

  /** Write the identity if it differs, and then link the row to its new canonical ID. */
  function Settled(hash: Hash, k: Key, row: SourceRow, f: Option<LocalFile>, now: int): SourceRow {
    var columns := IdentityColumns(f);
    if (row.canonicalSha1, row.canonicalSize) == columns then row
    else Relinked(hash, k, row.(canonicalSha1 := columns.0, canonicalSize := columns.1, updatedAt := now), now)
  }

  /** The sources after a full reconcile. */
  function FullSources(
      hash: Hash, h: PathHash, files: seq<LocalFile>, mappings: seq<Mapping>, s: Sources, now: int): Sources
  {
    map k | k in s ::
      if PathMapped(s[k]) then Settled(hash, k, s[k], Desired(h, files, mappings, k, s[k]), now) else s[k]
  }

  /** Every mapped row has the identity a full reconcile over these files would give it. */
  predicate Reconciled(h: PathHash, files: seq<LocalFile>, mappings: seq<Mapping>, s: Sources) {
    forall k | k in s && PathMapped(s[k]) ::
      (s[k].canonicalSha1, s[k].canonicalSize) == IdentityColumns(Desired(h, files, mappings, k, s[k]))
  }

  // ------------------------------------------------------------------ which rows a loss hits

  /** A lost relative path reaches the row through mapping `m`. */
  predicate Hits(h: PathHash, m: Mapping, source: int, root: int, path: string, k: Key, row: SourceRow) {
    && m.local == source && m.root == root && k.sourceKey == m.immich
    && row.kind == Immich && PathMapped(row)
    && OriginalPath(m.prefix, path).Some?
    && row.sha1.Some? && row.sha1.value.text == PathChecksum(h, OriginalPath(m.prefix, path).value)
  }

  /** The original path the last hit leaves for a row: the last path, and for it the last mapping. */
  function HitPath(
      h: PathHash, mappings: seq<Mapping>, source: int, root: int, paths: seq<string>, k: Key,
      row: SourceRow): Option<string>
    decreases |paths|, |mappings|
  {
    if paths == [] then None
    else
      var last := HitByPath(h, mappings, source, root, paths[|paths| - 1], k, row);
      if last.Some? then last else HitPath(h, mappings, source, root, paths[..|paths| - 1], k, row)
  }

  function HitByPath(
      h: PathHash, mappings: seq<Mapping>, source: int, root: int, path: string, k: Key,
      row: SourceRow): Option<string>
  {
    if mappings == [] then None
    else
      var m := mappings[|mappings| - 1];
      if Hits(h, m, source, root, path, k, row) then OriginalPath(m.prefix, path)
      else HitByPath(h, mappings[..|mappings| - 1], source, root, path, k, row)
  }

  /** The sources after the loss reconcile: only hit rows are looked at. */
  function LossSources(
    hash: Hash, h: PathHash, files: seq<LocalFile>, mappings: seq<Mapping>,
    source: int, root: int, paths: seq<string>, s: Sources, now: int): Sources
  {
    map k | k in s ::
      var original := HitPath(h, mappings, source, root, paths, k, s[k]);
      if original.None? then s[k]
      else Settled(hash, k, s[k], Replacement(files, mappings, k, s[k], original.value), now)
  }

  // ------------------------------------------------------------------------- agreement

  /** An original path built from a stable prefix is its own normal form. */
  lemma OriginalIsNormal(prefix: string, path: string)
    requires StablePrefix(Normalize(prefix)) && OriginalPath(prefix, path).Some?
    ensures var original := OriginalPath(prefix, path).value;
            Normalize(original) == original && Trim(original) == original
  {
    var p, r := Normalize(prefix), Trim(path);
    NormalizeIsClean(prefix);
    JoinedIsNormal(p, r);
    var s := p + "/" + r;
    assert s[0] == p[0] && s[|s| - 1] == r[|r| - 1];
    TrimStays(s);
  }

  /** A path that needs no trimming, below a prefix that stays as it is, under a normal original path. */
  predicate Plain(prefix: string, path: string, original: string) {
    Trim(path) == path && StablePrefix(Normalize(prefix)) && Normalize(original) == Trim(original)
  }

  lemma NormalizeTrims(a: string, b: string)
    requires Trim(a) == Trim(b)
    ensures Normalize(a) == Normalize(b)
  {
  }

  /** A recorded file is served exactly when nothing is lost by trimming and cleaning. */
  lemma RecordedIsServedIff(m: Mapping, path: string, original: string)
    requires OriginalPath(m.prefix, path).Some? && Trim(OriginalPath(m.prefix, path).value) == Trim(original)
    ensures RelativePath(original, m.prefix) == Some(path) <==> Plain(m.prefix, path, original)
  {
    var joined := OriginalPath(m.prefix, path).value;
    NormalizeTrims(joined, original);
    assert RelativePath(original, m.prefix) == RelativePath(joined, m.prefix);
    JoinThenRelative(m.prefix, path);
    if StablePrefix(Normalize(m.prefix)) { OriginalIsNormal(m.prefix, path); }
  }

  lemma PlainServedIsRecorded(m: Mapping, path: string, original: string)
    requires RelativePath(original, m.prefix) == Some(path) && Plain(m.prefix, path, original)
    ensures OriginalPath(m.prefix, path).Some? && Trim(OriginalPath(m.prefix, path).value) == Trim(original)
  {
    RelativeThenJoin(original, m.prefix);
    OriginalIsNormal(m.prefix, path);
  }

  /**
   For one mapping and file, recording by checksum and serving by relative path coincide if
   and only if the match, when there is one, is plain.
   */
  lemma RecordsIffServes(h: PathHash, m: Mapping, f: LocalFile, k: Key, row: SourceRow, original: string)
    requires Injective(h) && row.kind == Immich && PathMapped(row)
    requires row.sha1.Some? && row.sha1.value.text == PathChecksum(h, original)
    ensures (Records(h, m, f, k, row) <==> Serves(m, f, k, row, original))
            <==> (Records(h, m, f, k, row) || Serves(m, f, k, row, original) ==> Plain(m.prefix, f.path, original))
  {
    if Records(h, m, f, k, row) {
      assert Trim(OriginalPath(m.prefix, f.path).value) == Trim(original);
      RecordedIsServedIff(m, f.path, original);
    } else if Serves(m, f, k, row, original) && Plain(m.prefix, f.path, original) {
      PlainServedIsRecorded(m, f.path, original);
      assert false;
    }
  }

  lemma {:induction false} SameWinner(files: seq<LocalFile>, p: LocalFile -> bool, q: LocalFile -> bool)
    requires forall i | 0 <= i < |files| :: p(files[i]) <==> q(files[i])
    ensures Winner(files, p) == Winner(files, q)
  {
    if files != [] {
      SameWinner(files[..|files| - 1], p, q);
    }
  }

  lemma {:induction false} SameResolution(
      mappings: seq<Mapping>, p: Mapping -> Option<LocalFile>, q: Mapping -> Option<LocalFile>)
    requires forall i | 0 <= i < |mappings| :: p(mappings[i]) == q(mappings[i])
    ensures Resolve(mappings, p) == Resolve(mappings, q)
  {
    if mappings != [] {
      SameResolution(mappings[..|mappings| - 1], p, q);
    }
  }

  /** Some mapping makes the lost path reach the row, under this original path. */
  ghost predicate ReachesBy(
      h: PathHash, mappings: seq<Mapping>, source: int, root: int, path: string, k: Key, row: SourceRow,
      original: string)
  {
    exists m :: m in mappings && Hits(h, m, source, root, path, k, row)
        && OriginalPath(m.prefix, path).value == original
  }

  lemma {:induction false} HitByPathIsHit(
      h: PathHash, mappings: seq<Mapping>, source: int, root: int, path: string, k: Key, row: SourceRow)
    ensures var p := HitByPath(h, mappings, source, root, path, k, row);
            && (p.Some? ==> ReachesBy(h, mappings, source, root, path, k, row, p.value))
            && (p.None? ==> forall m | m in mappings :: !Hits(h, m, source, root, path, k, row))
  {
    if mappings != [] {
      var front, last := mappings[..|mappings| - 1], mappings[|mappings| - 1];
      assert mappings == front + [last];
      HitByPathIsHit(h, front, source, root, path, k, row);
      if Hits(h, last, source, root, path, k, row) {
        assert last in mappings;
      } else {
        var p := HitByPath(h, front, source, root, path, k, row);
        if p.Some? {
          var m :| m in front && Hits(h, m, source, root, path, k, row)
              && OriginalPath(m.prefix, path).value == p.value;
          assert m in mappings;
        }
      }
    }
  }

  lemma {:induction false} HitPathIsHit(
      h: PathHash, mappings: seq<Mapping>, source: int, root: int, paths: seq<string>, k: Key, row: SourceRow)
    ensures var p := HitPath(h, mappings, source, root, paths, k, row);
            && (p.Some? ==> exists path :: path in paths && ReachesBy(h, mappings, source, root, path, k, row, p.value))
            && (p.None? ==> forall path, m | path in paths && m in mappings :: !Hits(h, m, source, root, path, k, row))
  {
    if paths != [] {
      var front, last := paths[..|paths| - 1], paths[|paths| - 1];
      assert paths == front + [last];
      HitPathIsHit(h, mappings, source, root, front, k, row);
      HitByPathIsHit(h, mappings, source, root, last, k, row);
    }
  }

  // ------------------------------------------------------------- rows a loss cannot reach

  predicate At(f: LocalFile, source: int, root: int, paths: seq<string>) {
    f.source == source && f.root == root && f.path in paths
  }

  function Elsewhere(files: seq<LocalFile>, source: int, root: int, paths: seq<string>): seq<LocalFile> {
    if files == [] then []
    else
      var last := files[|files| - 1];
      Elsewhere(files[..|files| - 1], source, root, paths) + if At(last, source, root, paths) then [] else [last]
  }

  /** Files at other places are the same, in the same order; at the lost paths anything may have happened. */
  predicate OnlyLost(before: seq<LocalFile>, after: seq<LocalFile>, source: int, root: int, paths: seq<string>) {
    Elsewhere(before, source, root, paths) == Elsewhere(after, source, root, paths)
  }

  lemma {:induction false} WinnerElsewhere(
      files: seq<LocalFile>, source: int, root: int, paths: seq<string>, p: LocalFile -> bool)
    requires forall i | 0 <= i < |files| :: At(files[i], source, root, paths) ==> !p(files[i])
    ensures Winner(files, p) == Winner(Elsewhere(files, source, root, paths), p)
  {
    if files != [] {
      var front, last := files[..|files| - 1], files[|files| - 1];
      WinnerElsewhere(front, source, root, paths, p);
      var rest := Elsewhere(front, source, root, paths);
      if At(last, source, root, paths) {
        assert rest + [] == rest;
      } else {
        assert (rest + [last])[..|rest|] == rest;
      }
    }
  }

  /** A row no lost path hits wants the same file before and after. */
  lemma UnhitKeepsDesired(
    h: PathHash, before: seq<LocalFile>, after: seq<LocalFile>, mappings: seq<Mapping>,
    source: int, root: int, paths: seq<string>, k: Key, row: SourceRow)
    requires OnlyLost(before, after, source, root, paths)
    requires HitPath(h, mappings, source, root, paths, k, row).None?
    ensures Desired(h, after, mappings, k, row) == Desired(h, before, mappings, k, row)
  {
    HitPathIsHit(h, mappings, source, root, paths, k, row);
    forall i | 0 <= i < |mappings|
      ensures FullPick(h, after, k, row)(mappings[i]) == FullPick(h, before, k, row)(mappings[i])
    {
      var p := RecordedBy(h, mappings[i], k, row);
      assert mappings[i] in mappings;
      UnhitIsNotRecorded(h, mappings[i], source, root, paths, k, row);
      WinnerElsewhere(before, source, root, paths, p);
      WinnerElsewhere(after, source, root, paths, p);
    }
    SameResolution(mappings, FullPick(h, after, k, row), FullPick(h, before, k, row));
  }

  lemma UnhitIsNotRecorded(h: PathHash, m: Mapping, source: int, root: int, paths: seq<string>, k: Key, row: SourceRow)
    requires forall path | path in paths :: !Hits(h, m, source, root, path, k, row)
    ensures forall f: LocalFile | At(f, source, root, paths) :: !RecordedBy(h, m, k, row)(f)
  {
  }

  lemma FullReconciles(hash: Hash, h: PathHash, files: seq<LocalFile>, mappings: seq<Mapping>, s: Sources, now: int)
    ensures Reconciled(h, files, mappings, FullSources(hash, h, files, mappings, s, now))
  {
    var s' := FullSources(hash, h, files, mappings, s, now);
    forall k | k in s' && PathMapped(s'[k])
      ensures (s'[k].canonicalSha1, s'[k].canonicalSize) == IdentityColumns(Desired(h, files, mappings, k, s'[k]))
    {
      forall i | 0 <= i < |mappings|
        ensures FullPick(h, files, k, s'[k])(mappings[i]) == FullPick(h, files, k, s[k])(mappings[i])
      {
        SameWinner(files, RecordedBy(h, mappings[i], k, s'[k]), RecordedBy(h, mappings[i], k, s[k]));
      }
      SameResolution(mappings, FullPick(h, files, k, s'[k]), FullPick(h, files, k, s[k]));
    }
  }

  /**
   The two reconcilers agree on a single mapped file exactly when its path has no
   surrounding white space and the prefix is stable: these conditions are needed.
   */
  lemma SingleFileAgreesIff(h: PathHash, m: Mapping, f: LocalFile, k: Key, row: SourceRow)
    requires Records(h, m, f, k, row)
    ensures Replacement([f], [m], k, row, OriginalPath(m.prefix, f.path).value) == Desired(h, [f], [m], k, row)
            <==> Trim(f.path) == f.path && StablePrefix(Normalize(m.prefix))
  {
    var original := OriginalPath(m.prefix, f.path).value;
    JoinThenRelative(m.prefix, f.path);
    SingleWinner(f, RecordedBy(h, m, k, row));
    SingleWinner(f, ServedBy(m, k, row, original));
    SingleResolution(m, FullPick(h, [f], k, row));
    SingleResolution(m, LossPick([f], k, row, original));
  }

  lemma SingleWinner(f: LocalFile, p: LocalFile -> bool)
    ensures Winner([f], p) == if p(f) then Some(f) else None
  {
    assert [f][..0] == [];
  }

  lemma SingleResolution(m: Mapping, pick: Mapping -> Option<LocalFile>)
    ensures Resolve([m], pick) == pick(m)
  {
    assert [m][..0] == [];
  }
}
