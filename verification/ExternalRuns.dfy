/**
 Borrowed identities over whole runs. Configuration changes, losses, gains and the mirror's
 own writes keep every mapped row reconciled if and only if each of them meets a condition
 on the files, mappings and rows it finds.
 */
module ExternalRuns {
  import opened Wrappers
  import opened GalleryRows
  import opened CatalogTables
  import opened CanonicalAssets
  import opened Text
  import opened ExternalPaths
  import opened ExternalIdentity
  import opened ExternalPrecedence
  import opened ExternalConfigured
  import opened ExternalGain

  // ------------------------------------------------------------------ the mirror's writer

  datatype Place = Place(mapping: Mapping, path: string)

  /** The first mapping of an Immich source with the original path below its prefix. */
  function MappedPlace(mappings: seq<Mapping>, immich: int, original: string): Option<Place> {
    if mappings == [] then None
    else
      var path := RelativePath(original, mappings[0].prefix);
      if mappings[0].immich == immich && path.Some? then Some(Place(mappings[0], path.value))
      else MappedPlace(mappings[1..], immich, original)
  }

  method FindMappedPlace(mappings: seq<Mapping>, immich: int, original: string) returns (place: Option<Place>)
    ensures place == MappedPlace(mappings, immich, original)
  {
    assert mappings[0..] == mappings;
    for i := 0 to |mappings|
      invariant MappedPlace(mappings, immich, original) == MappedPlace(mappings[i..], immich, original)
    {
      assert mappings[i..][1..] == mappings[i + 1..];
      if mappings[i].immich != immich {
        continue;
      }
      var path := RelativePath(original, mappings[i].prefix);
      if path.Some? {
        return Some(Place(mappings[i], path.value));
      }
    }
    place := None;
  }

  /** The path looked up: the staged writer of a full sync stores it trimmed, the incremental one does not. */
  function LookupPath(path: string, staged: bool): string {
    if staged then Trim(path) else path
  }

  /** The lookup has no test of the media type. */
  predicate Found(m: Mapping, f: LocalFile, immich: int, original: string, staged: bool) {
    var path := RelativePath(original, m.prefix);
    && m.immich == immich && path.Some? && Trim(path.value) != ""
    && f.source == m.local && f.root == m.root && f.active
    && f.path == LookupPath(path.value, staged)
  }

  function FoundBy(m: Mapping, immich: int, original: string, staged: bool): LocalFile -> bool {
    (f: LocalFile) => Found(m, f, immich, original, staged)
  }

  function MirrorFile(
      files: seq<LocalFile>, mappings: seq<Mapping>, immich: int, original: string, staged: bool): Option<LocalFile>
  {
    var place := MappedPlace(mappings, immich, original);
    if place.None? then None else Winner(files, FoundBy(place.value.mapping, immich, original, staged))
  }

  /** The identity columns a mirrored row gets: the incremental writer turns sizes that are not positive into NULL. */
  function MirrorColumns(
      files: seq<LocalFile>, mappings: seq<Mapping>, immich: int, original: string, staged: bool):
      (Option<ShaText>, Option<int>)
  {
    var f := MirrorFile(files, mappings, immich, original, staged);
    if f.None? || staged then IdentityColumns(f)
    else
      (if f.value.sha1 > 0 then Some(ShaText(f.value.sha1, f.value.sha1)) else None,
       if f.value.size > 0 then Some(f.value.size) else None)
  }

  // ------------------------------------------------------- when the mirror agrees, exactly

  /** Trimmed paths of active files are distinct, and their hashes are hashes. */
  predicate Sound(files: seq<LocalFile>) {
    Distinct(files) && forall f | f in files && f.active :: f.sha1 > 0
  }

  /** The row is what the mirror writes for an asset whose checksum is that of its original path. */
  predicate Shows(h: PathHash, row: SourceRow, original: string) {
    row.kind == Immich && PathMapped(row) && row.sha1.Some? && row.sha1.value.text == PathChecksum(h, original)
  }

  /** A file that is found has the row's media type, a path and size that survive, and a normal original path. */
  predicate FitsRow(m: Mapping, f: LocalFile, row: SourceRow, original: string, staged: bool)
    requires RelativePath(original, m.prefix).Some?
  {
    var path := RelativePath(original, m.prefix).value;
    && f.media == row.media && (staged || f.size > 0)
    && Trim(path) == path && Normalize(original) == Trim(original)
  }

  predicate MirrorFits(
      h: PathHash, files: seq<LocalFile>, mappings: seq<Mapping>, k: Key, row: SourceRow, original: string,
      staged: bool)
  {
    && (forall m, f | m in mappings && f in files && Found(m, f, k.sourceKey, original, staged) ::
          FitsRow(m, f, row, original, staged))
    && TrimmedMatches(h, files, mappings, k, row)
  }

  lemma {:induction false} MappedPlaceIsFirst(mappings: seq<Mapping>, immich: int, original: string)
    ensures var place := MappedPlace(mappings, immich, original);
            && (place.Some? ==> place.value.mapping in mappings && place.value.mapping.immich == immich
                                && RelativePath(original, place.value.mapping.prefix) == Some(place.value.path))
            && (place.None? ==>
                  forall m | m in mappings && m.immich == immich :: RelativePath(original, m.prefix).None?)
  {
    if mappings != [] {
      var first, rest := mappings[0], mappings[1..];
      assert forall m | m in mappings :: m == first || m in rest;
      if !(first.immich == immich && RelativePath(original, first.prefix).Some?) {
        MappedPlaceIsFirst(rest, immich, original);
      }
    }
  }

  lemma {:induction false} WinnerHas(files: seq<LocalFile>, p: LocalFile -> bool)
    ensures Winner(files, p).Some? ==> Winner(files, p).value in files && p(Winner(files, p).value)
    ensures Winner(files, p).None? ==> forall f | f in files :: !p(f)
  {
    if files != [] {
      WinnerHas(files[..|files| - 1], p);
      assert files == files[..|files| - 1] + [files[|files| - 1]];
    }
  }

  lemma OneRelative(mappings: seq<Mapping>, m: Mapping, m': Mapping, original: string)
    requires Accepted(mappings) && m in mappings && m' in mappings && m.immich == m'.immich
    requires RelativePath(original, m.prefix).Some? && RelativePath(original, m'.prefix).Some?
    ensures m == m'
  {
    PrefixesApart(mappings, m, m', Normalize(original));
  }

  /** The mirror finds a file exactly when there is one to find, and then it is the only one. */
  lemma MirrorFileIsFound(
      files: seq<LocalFile>, mappings: seq<Mapping>, immich: int, original: string, staged: bool)
    requires Accepted(mappings) && Distinct(files)
    ensures var choice := MirrorFile(files, mappings, immich, original, staged);
            && (choice.Some? ==>
                  && choice.value in files
                  && exists m :: m in mappings && Found(m, choice.value, immich, original, staged))
            && forall m, f | m in mappings && f in files && Found(m, f, immich, original, staged) :: choice == Some(f)
  {
    var place := MappedPlace(mappings, immich, original);
    MappedPlaceIsFirst(mappings, immich, original);
    if place.Some? {
      WinnerHas(files, FoundBy(place.value.mapping, immich, original, staged));
      var choice := MirrorFile(files, mappings, immich, original, staged);
      forall m, f | m in mappings && f in files && Found(m, f, immich, original, staged) ensures choice == Some(f) {
        OneRelative(mappings, m, place.value.mapping, original);
        assert FoundBy(place.value.mapping, immich, original, staged)(f);
        OneFile(files, f, choice.value);
      }
    }
  }

  lemma FittingIsRecorded(
      h: PathHash, m: Mapping, f: LocalFile, k: Key, row: SourceRow, original: string, staged: bool)
    requires Injective(h) && BelowRoot(Prefix(m)) && Shows(h, row, original)
    requires Found(m, f, k.sourceKey, original, staged) && FitsRow(m, f, row, original, staged)
    ensures Records(h, m, f, k, row)
  {
    RecordsIffServes(h, m, f, k, row, original);
  }

  lemma RecordedIsFound(
      h: PathHash, m: Mapping, f: LocalFile, k: Key, row: SourceRow, original: string, staged: bool)
    requires Injective(h) && BelowRoot(Prefix(m)) && Shows(h, row, original)
    requires Records(h, m, f, k, row)
    ensures RelativePath(original, m.prefix) == Some(Trim(f.path)) && Normalize(original) == Trim(original)
    ensures Trim(Trim(f.path)) == Trim(f.path) != ""
    ensures Trim(f.path) == f.path ==> Found(m, f, k.sourceKey, original, staged)
  {
    var joined := OriginalPath(m.prefix, f.path).value;
    AcceptedOriginal(m, f.path);
    assert joined == Trim(original);
    NormalizeTrims(joined, original);
    assert joined == OriginalPath(m.prefix, Trim(f.path)).value;
    RecordedIsServedIff(m, Trim(f.path), original);
  }

  /**
   A mirrored row has the identity a full reconcile would give it if and only if every file
   the mirror finds fits the row and every file that matches the row has a trimmed path.
   */
  lemma MirrorReconcilesIff(
      h: PathHash, files: seq<LocalFile>, mappings: seq<Mapping>, k: Key, row: SourceRow, original: string,
      staged: bool)
    requires Injective(h) && Accepted(mappings) && Sound(files) && Shows(h, row, original)
    ensures MirrorColumns(files, mappings, k.sourceKey, original, staged)
            == IdentityColumns(Desired(h, files, mappings, k, row))
            <==> MirrorFits(h, files, mappings, k, row, original, staged)
  {
    MirrorFileIsFound(files, mappings, k.sourceKey, original, staged);
    if MirrorFits(h, files, mappings, k, row, original, staged) {
      FittingMirrorAgrees(h, files, mappings, k, row, original, staged);
    } else if !TrimmedMatches(h, files, mappings, k, row) {
      UntrimmedIsMissed(h, files, mappings, k, row, original, staged);
    } else {
      UnfitIsWrong(h, files, mappings, k, row, original, staged);
    }
  }

  lemma FittingMirrorAgrees(
      h: PathHash, files: seq<LocalFile>, mappings: seq<Mapping>, k: Key, row: SourceRow, original: string,
      staged: bool)
    requires Injective(h) && Accepted(mappings) && Sound(files) && Shows(h, row, original)
    requires MirrorFits(h, files, mappings, k, row, original, staged)
    ensures MirrorColumns(files, mappings, k.sourceKey, original, staged)
            == IdentityColumns(Desired(h, files, mappings, k, row))
  {
    MirrorFileIsFound(files, mappings, k.sourceKey, original, staged);
    var choice := MirrorFile(files, mappings, k.sourceKey, original, staged);
    if choice.Some? {
      var m :| m in mappings && Found(m, choice.value, k.sourceKey, original, staged);
      FittingIsRecorded(h, m, choice.value, k, row, original, staged);
      DesiredIsTheMatch(h, files, mappings, m, choice.value, k, row);
    } else {
      forall m, f | m in mappings && f in files && Records(h, m, f, k, row) ensures false {
        RecordedIsFound(h, m, f, k, row, original, staged);
      }
      UnmatchedWantsNone(h, files, mappings, k, row);
    }
  }

  lemma UntrimmedIsMissed(
      h: PathHash, files: seq<LocalFile>, mappings: seq<Mapping>, k: Key, row: SourceRow, original: string,
      staged: bool)
    requires Injective(h) && Accepted(mappings) && Sound(files) && Shows(h, row, original)
    requires !TrimmedMatches(h, files, mappings, k, row)
    ensures MirrorColumns(files, mappings, k.sourceKey, original, staged)
            != IdentityColumns(Desired(h, files, mappings, k, row))
  {
    var m, f :| m in mappings && f in files && Records(h, m, f, k, row) && Trim(f.path) != f.path;
    DesiredIsTheMatch(h, files, mappings, m, f, k, row);
    RecordedIsFound(h, m, f, k, row, original, staged);
    MirrorFileIsFound(files, mappings, k.sourceKey, original, staged);
    var choice := MirrorFile(files, mappings, k.sourceKey, original, staged);
    if choice.Some? {
      var m' :| m' in mappings && Found(m', choice.value, k.sourceKey, original, staged);
      OneRelative(mappings, m, m', original);
      OneFile(files, f, choice.value);
      assert false;
    }
  }

  lemma UnfitIsWrong(
      h: PathHash, files: seq<LocalFile>, mappings: seq<Mapping>, k: Key, row: SourceRow, original: string,
      staged: bool)
    requires Injective(h) && Accepted(mappings) && Sound(files) && Shows(h, row, original)
    requires TrimmedMatches(h, files, mappings, k, row) && !MirrorFits(h, files, mappings, k, row, original, staged)
    ensures MirrorColumns(files, mappings, k.sourceKey, original, staged)
            != IdentityColumns(Desired(h, files, mappings, k, row))
  {
    var m, f :| m in mappings && f in files && Found(m, f, k.sourceKey, original, staged)
          && !FitsRow(m, f, row, original, staged);
    MirrorFileIsFound(files, mappings, k.sourceKey, original, staged);
    if Matched(h, files, mappings, k, row) {
      var m', g :| m' in mappings && g in files && Records(h, m', g, k, row);
      RecordedAndFoundFits(h, mappings, m, f, m', g, k, row, original, staged);
      DesiredIsTheMatch(h, files, mappings, m', g, k, row);
    } else {
      UnmatchedWantsNone(h, files, mappings, k, row);
    }
  }

  /** A file that is found beside a match is that match, and only its size can be at fault. */
  lemma RecordedAndFoundFits(
      h: PathHash, mappings: seq<Mapping>, m: Mapping, f: LocalFile, m': Mapping, g: LocalFile, k: Key, row: SourceRow,
      original: string, staged: bool)
    requires Injective(h) && Accepted(mappings) && Shows(h, row, original) && m in mappings && m' in mappings
    requires Found(m, f, k.sourceKey, original, staged)
    requires Records(h, m', g, k, row) && Trim(g.path) == g.path
    ensures Found(m', g, k.sourceKey, original, staged) && f.path == g.path
    ensures f.media == g.media && (staged || f.size > 0) ==> FitsRow(m, f, row, original, staged)
  {
    RecordedIsFound(h, m', g, k, row, original, staged);
    OneRelative(mappings, m, m', original);
  }

  /** A film's bytes at an image's path: either writer gives the row an identity the reconcilers take away. */
  lemma MirrorCanMisread(h: PathHash, staged: bool)
    requires Injective(h)
    ensures var row := RowOfName(h, 20, 200);
            && Accepted([LIBRARY]) && Sound([FILMED]) && Shows(h, row, "/p/a.jpg")
            && MirrorColumns([FILMED], [LIBRARY], 1, "/p/a.jpg", staged)
               != IdentityColumns(Desired(h, [FILMED], [LIBRARY], Key(1, 1), row))
  {
    LibraryIsAccepted();
    OriginalsOfName();
    BelowName();
    assert LIBRARY in [LIBRARY] && FILMED in [FILMED] && Found(LIBRARY, FILMED, 1, "/p/a.jpg", staged);
    MirrorReconcilesIff(h, [FILMED], [LIBRARY], Key(1, 1), RowOfName(h, 20, 200), "/p/a.jpg", staged);
  }

  /**
   Of an original path with a space in front of its file name, the staged writer finds the
   file without the space and the incremental writer does not.
   */
  lemma WritersCanDiffer()
    ensures MirrorFile([PLAIN], [LIBRARY], 1, "/p/ a.jpg", true) == Some(PLAIN)
    ensures MirrorFile([PLAIN], [LIBRARY], 1, "/p/ a.jpg", false) == None
  {
    SpacedIsRelative();
    TrimOfSpaced();
    assert |PLAIN.path| != |" a.jpg"|;
    assert [PLAIN][..0] == [];
    SingleWinner(PLAIN, FoundBy(LIBRARY, 1, "/p/ a.jpg", true));
    SingleWinner(PLAIN, FoundBy(LIBRARY, 1, "/p/ a.jpg", false));
  }

  // ------------------------------------------------------------------------- whole runs

  datatype World = World(files: seq<LocalFile>, mappings: seq<Mapping>, sources: Sources)

  /**
   `scope` is the configuration a writer started from: its transaction changes nothing when
   another one is in force by then. `files` are the Local files after the transaction, and
   the mirrored `row` is complete but for its borrowed identity.
   */
  datatype Event =
    | Configure(now: int, mappings: seq<Mapping>)
    | Lose(now: int, scope: seq<Mapping>, source: int, root: int, paths: seq<string>, files: seq<LocalFile>)
    | Gain(now: int, scope: seq<Mapping>, file: LocalFile, media: Media, files: seq<LocalFile>)
    | Mirror(now: int, scope: seq<Mapping>, key: Key, row: SourceRow, original: string, staged: bool)

  function Step(hash: Hash, h: PathHash, w: World, e: Event): World {
    if e.Configure? then
      if e.mappings == w.mappings then w
      else World(w.files, e.mappings, FullSources(hash, h, w.files, e.mappings, w.sources, e.now))
    else if e.scope != w.mappings then w
    else
      match e
      case Lose(now, _, source, root, paths, files) =>
        World(files, w.mappings, LossSources(hash, h, files, w.mappings, source, root, paths, w.sources, now))
      case Gain(now, _, f, media, files) =>
        World(files, w.mappings, GainSources(hash, h, w.mappings, f.(media := media), w.sources, now))
      case Mirror(_, _, k, row, original, staged) =>
        w.(sources := w.sources[k := Mirrored(w, k, row, original, staged)])
  }

  function Mirrored(w: World, k: Key, row: SourceRow, original: string, staged: bool): SourceRow {
    if !PathMapped(row) then row
    else
      var columns := MirrorColumns(w.files, w.mappings, k.sourceKey, original, staged);
      row.(canonicalSha1 := columns.0, canonicalSize := columns.1)
  }

  /** The rows are those of a full reconcile. */
  predicate Settles(h: PathHash, w: World) {
    Reconciled(h, w.files, w.mappings, w.sources)
  }

  predicate Valid(w: World) {
    Accepted(w.mappings) && Sound(w.files)
  }

  /** What the transactions do to the Local files, and what validation lets through. */
  predicate Legal(h: PathHash, w: World, e: Event) {
    match e
    case Configure(_, mappings) => Accepted(mappings)
    case Lose(_, _, source, root, paths, files) => OnlyLost(w.files, files, source, root, paths) && Sound(files)
    case Gain(_, _, f, _, files) => OnlyGained(w.files, files, f) && f.active && Sound(files)
    case Mirror(_, _, _, row, original, _) => PathMapped(row) ==> Shows(h, row, original)
  }

  /** The condition under which an event keeps the rows reconciled. */
  predicate Safe(h: PathHash, w: World, e: Event) {
    e.Configure? || e.scope != w.mappings ||
    match e
    case Lose(_, _, source, root, paths, files) => TrimmedHits(h, files, w.mappings, source, root, paths, w.sources)
    case Gain(_, _, f, media, _) => media == f.media || Unmapped(h, w.mappings, f, media, w.sources)
    case Mirror(_, _, k, row, original, staged) =>
      PathMapped(row) ==> MirrorFits(h, w.files, w.mappings, k, row, original, staged)
  }

  lemma MirrorStepIff(hash: Hash, h: PathHash, w: World, e: Event)
    requires Injective(h) && Valid(w) && Settles(h, w) && e.Mirror? && Legal(h, w, e) && e.scope == w.mappings
    ensures Settles(h, Step(hash, h, w, e)) <==> Safe(h, w, e)
  {
    var after := Step(hash, h, w, e);
    var row := after.sources[e.key];
    if PathMapped(row) {
      SettlingKeepsDesired(hash, h, w.files, w.mappings, e.key, e.row, row);
      MirrorReconcilesIff(h, w.files, w.mappings, e.key, e.row, e.original, e.staged);
    }
    forall k | k in after.sources && k != e.key ensures after.sources[k] == w.sources[k] {
    }
  }

  /** One event keeps the rows reconciled if and only if it meets its condition. */
  lemma StepReconcilesIff(hash: Hash, h: PathHash, w: World, e: Event)
    requires Injective(h) && Valid(w) && Settles(h, w) && Legal(h, w, e)
    ensures Valid(Step(hash, h, w, e))
    ensures Settles(h, Step(hash, h, w, e)) <==> Safe(h, w, e)
    ensures e.Configure? ==> Step(hash, h, w, e).mappings == e.mappings && Step(hash, h, w, e).files == w.files
    ensures !e.Configure? && e.scope != w.mappings ==> Step(hash, h, w, e) == w
    ensures e.Mirror? && e.scope == w.mappings ==>
              var after := Step(hash, h, w, e);
              && after.files == w.files && after.mappings == w.mappings && e.key in after.sources
              && after.sources.Keys == w.sources.Keys + {e.key}
              && (forall k | k in w.sources && k != e.key :: after.sources[k] == w.sources[k])
              && after.sources[e.key].(canonicalSha1 := e.row.canonicalSha1, canonicalSize := e.row.canonicalSize)
                 == e.row
              && (e.row.algorithm != Sha1Path ==> after.sources[e.key] == e.row)
    ensures (e.Lose? || e.Gain?) && e.scope == w.mappings ==>
              Step(hash, h, w, e).mappings == w.mappings && Step(hash, h, w, e).files == e.files
  {
    if e.Configure? {
      FullReconciles(hash, h, w.files, e.mappings, w.sources, e.now);
    } else if e.scope == w.mappings {
      match e
      case Lose(now, _, source, root, paths, files) =>
        LossReconciles(hash, h, w.files, files, w.mappings, source, root, paths, w.sources, now);
      case Gain(now, _, f, media, files) =>
        GainReconcilesIff(hash, h, w.files, files, w.mappings, f, media, w.sources, now);
      case Mirror(_, _, _, _, _, _) =>
        MirrorStepIff(hash, h, w, e);
    }
  }

  function States(hash: Hash, h: PathHash, w: World, events: seq<Event>): (r: seq<World>)
    ensures |r| == |events| + 1
    decreases |events|
  {
    if events == [] then [w] else [w] + States(hash, h, Step(hash, h, w, events[0]), events[1..])
  }

  predicate LegalRun(hash: Hash, h: PathHash, w: World, events: seq<Event>) {
    forall n | 0 <= n < |events| :: Legal(h, States(hash, h, w, events)[n], events[n])
  }

  /** From reconciled rows, all rows stay reconciled throughout a run if and only if each event meets its condition. */
  lemma {:induction false} RunReconcilesIff(hash: Hash, h: PathHash, w: World, events: seq<Event>)
    requires Injective(h) && Valid(w) && Settles(h, w) && LegalRun(hash, h, w, events)
    ensures var states := States(hash, h, w, events);
            (forall n | 0 <= n < |states| :: Settles(h, states[n]))
            <==> forall n | 0 <= n < |events| :: Safe(h, states[n], events[n])
    decreases |events|
  {
    if events != [] {
      var states, rest := States(hash, h, w, events), events[1..];
      var next := Step(hash, h, w, events[0]);
      var later := States(hash, h, next, rest);
      assert states[0] == w && states[1..] == later && later[0] == next;
      assert Legal(h, states[0], events[0]);
      StepReconcilesIff(hash, h, w, events[0]);
      forall n | 0 <= n < |rest| ensures Legal(h, later[n], rest[n]) {
        assert Legal(h, states[n + 1], events[n + 1]);
      }
      if Settles(h, next) {
        RunReconcilesIff(hash, h, next, rest);
        SplitRun(h, states, events);
      } else {
        assert !Settles(h, states[1]) && !Safe(h, states[0], events[0]);
      }
    }
  }

  lemma SplitRun(h: PathHash, states: seq<World>, events: seq<Event>)
    requires events != [] && |states| == |events| + 1
    ensures (forall n | 0 <= n < |states| :: Settles(h, states[n]))
            <==> Settles(h, states[0]) && forall n | 0 <= n < |states[1..]| :: Settles(h, states[1..][n])
    ensures (forall n | 0 <= n < |events| :: Safe(h, states[n], events[n]))
            <==> Safe(h, states[0], events[0])
                 && forall n | 0 <= n < |events[1..]| :: Safe(h, states[1..][n], events[1..][n])
  {
    forall n | 0 < n < |states| ensures states[n] == states[1..][n - 1] {
    }
    forall n | 0 < n < |events| ensures events[n] == events[1..][n - 1] && states[n] == states[1..][n - 1] {
    }
  }
}
