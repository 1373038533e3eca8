/**
 The gallery view as one query over the catalog tables, the row events its triggers
 react to, and the proof that a trigger's set of affected IDs is large enough.
 */
module GalleryView {
  import opened Wrappers
  import opened GalleryRows
  import opened CatalogTables

  /** Source keys by role: rows of catalog_gallery_projection_sources. */
  datatype Roles = Roles(local: set<int>, immich: set<int>, fallback: set<int>)

  predicate Configured(roles: Roles, k: Key, s: SourceRow) {
    || (s.kind == LocalFilesystem && k.sourceKey in roles.local)
    || (s.kind == Immich && k.sourceKey in roles.immich)
  }

  /** The rows `ranked_sources` ranks for one canonical asset. */
  function Candidates(t: Tables, roles: Roles, id: int): set<Key> {
    set k | k in t.sources
            && t.sources[k].canonicalId == Some(id)
            && t.sources[k].visibility == Active
            && Configured(roles, k, t.sources[k])
  }

  function KindRank(kind: Kind): nat {
    if kind == LocalFilesystem then 0 else 1
  }

  /** The `ROW_NUMBER() ... ORDER BY` of `ranked_sources`. */
  predicate RanksBefore(t: Tables, a: Key, b: Key)
    requires a in t.sources && b in t.sources
  {
    var ra, rb := KindRank(t.sources[a].kind), KindRank(t.sources[b].kind);
    ra < rb || (ra == rb && KeyBefore(a, b))
  }

  predicate KeyBefore(a: Key, b: Key) {
    a.sourceKey < b.sourceKey || (a.sourceKey == b.sourceKey && a.assetId < b.assetId)
  }

  predicate IsBest(t: Tables, keys: set<Key>, k: Key)
    requires keys <= t.sources.Keys
  {
    k in keys && forall j | j in keys && j != k :: RanksBefore(t, k, j)
  }

  lemma BestExists(t: Tables, keys: set<Key>)
    requires keys <= t.sources.Keys && keys != {}
    ensures exists k :: IsBest(t, keys, k)
  {
    var x :| x in keys;
    var rest := keys - {x};
    assert forall k | k in keys && k != x :: k in rest;
    if rest == {} {
      assert IsBest(t, keys, x);
    } else {
      BestExists(t, rest);
      var m :| IsBest(t, rest, m);
      assert IsBest(t, keys, if RanksBefore(t, m, x) then m else x);
    }
  }

  /** `selected_source`: the candidate with source_rank 1. */
  function Selected(t: Tables, roles: Roles, id: int): (k: Option<Key>)
    ensures k.None? <==> Candidates(t, roles, id) == {}
    ensures k.Some? ==> IsBest(t, Candidates(t, roles, id), k.value)
  {
    var keys := Candidates(t, roles, id);
    if keys == {} then None
    else
      BestExists(t, keys);
      var k :| IsBest(t, keys, k);
      Some(k)
  }

  /** The preview kinds that are ready for the current content of a local asset. */
  function ReadyKinds(t: Tables, k: Key): set<RenditionKind> {
    set kind | kind in {Preview, DetailPreview}
               && k in t.locals && t.locals[k].active && t.locals[k].thumbnailReady
               && RenditionKey(k, kind) in t.renditions
               && t.renditions[RenditionKey(k, kind)].ready
               && t.renditions[RenditionKey(k, kind)].hasPath
               && t.renditions[RenditionKey(k, kind)].sourceSha1 == Some(t.locals[k].sha1)
  }

  predicate HasImmichFallback(t: Tables, roles: Roles, id: int, k: Key) {
    k.sourceKey in roles.fallback
    && exists f | f in Candidates(t, roles, id) :: t.sources[f].kind == Immich
  }

  predicate Presentable(t: Tables, roles: Roles, id: int, k: Key)
    requires k in t.sources
  {
    || t.sources[k].kind != LocalFilesystem
    || HasImmichFallback(t, roles, id, k)
    || |ReadyKinds(t, k)| == 2
  }

  /** The view row of one canonical asset, when it has one. */
  function ViewRow(t: Tables, roles: Roles, id: int): Option<Row> {
    if id !in t.canonical || t.canonical[id].visibility != Active then None
    else
      var c := t.canonical[id];
      match Selected(t, roles, id)
      case None => None
      case Some(k) =>
        if Presentable(t, roles, id, k)
        then Some(Row(id, k.sourceKey, k.assetId, c.media, c.filename, c.capturedAt, c.duration))
        else None
  }

  /** The insert query restricted to some canonical IDs. */
  function ViewRows(t: Tables, roles: Roles, ids: set<int>): map<int, Row> {
    map id | id in ids && ViewRow(t, roles, id).Some? :: ViewRow(t, roles, id).value
  }

  /** The from-scratch build: the insert query with predicate `1 = 1`. */
  function View(t: Tables, roles: Roles): map<int, Row> {
    ViewRows(t, roles, t.canonical.Keys)
  }

  // ------------------------------------------------------------- what the view shows

  /** The source row offers an active copy of the asset from a source that is configured for its kind. */
  predicate Offers(t: Tables, roles: Roles, id: int, k: Key) {
    && k in t.sources && t.sources[k].canonicalId == Some(id) && t.sources[k].visibility == Active
    && match t.sources[k].kind
       case LocalFilesystem => k.sourceKey in roles.local
       case Immich => k.sourceKey in roles.immich
       case OtherKind => false
  }

  /** A Local copy goes before an Immich one; copies of one kind go by source key, then asset ID. */
  predicate GoesFirst(t: Tables, k: Key, j: Key)
    requires k in t.sources && j in t.sources
  {
    match (t.sources[k].kind, t.sources[j].kind)
    case (LocalFilesystem, Immich) => true
    case (Immich, LocalFilesystem) => false
    case _ => k.sourceKey < j.sourceKey || (k.sourceKey == j.sourceKey && k.assetId < j.assetId)
  }

  /** The file is active with a ready thumbnail, and this preview exists for its present content. */
  predicate PreviewReady(t: Tables, k: Key, kind: RenditionKind) {
    && k in t.locals && t.locals[k].active && t.locals[k].thumbnailReady
    && RenditionKey(k, kind) in t.renditions
    && var rendition := t.renditions[RenditionKey(k, kind)];
       rendition.ready && rendition.hasPath && rendition.sourceSha1 == Some(t.locals[k].sha1)
  }

  /** A Local copy is shown with both previews, or where Immich can stand in for them. */
  predicate CanBeShown(t: Tables, roles: Roles, id: int, k: Key)
    requires k in t.sources
  {
    t.sources[k].kind == LocalFilesystem ==>
      || (PreviewReady(t, k, Preview) && PreviewReady(t, k, DetailPreview))
      || (k.sourceKey in roles.fallback
          && exists j | j in t.sources :: Offers(t, roles, id, j) && t.sources[j].kind == Immich)
  }

  /**
   A row is in the view exactly when its canonical asset is active, it shows that asset under
   the copy that goes before all others on offer, and that copy can be shown.
   */
  lemma ViewMeaning(t: Tables, roles: Roles, r: Row)
    ensures var k := Key(r.sourceKey, r.upstreamId);
            (r.id in View(t, roles) && View(t, roles)[r.id] == r)
            <==>
              && r.id in t.canonical && t.canonical[r.id].visibility == Active
              && (var c := t.canonical[r.id];
                  r.media == c.media && r.filename == c.filename && r.capturedAt == c.capturedAt
                  && r.duration == c.duration)
              && Offers(t, roles, r.id, k)
              && (forall j | Offers(t, roles, r.id, j) && j != k :: GoesFirst(t, k, j))
              && CanBeShown(t, roles, r.id, k)
  {
    var k := Key(r.sourceKey, r.upstreamId);
    forall j ensures Offers(t, roles, r.id, j) <==> j in Candidates(t, roles, r.id) {
    }
    var selected := Selected(t, roles, r.id);
    SelectedGoesFirst(t, roles, r.id, k);
    if Offers(t, roles, r.id, k) {
      PresentableCanBeShown(t, roles, r.id, k);
    }
  }

  lemma SelectedGoesFirst(t: Tables, roles: Roles, id: int, k: Key)
    ensures Selected(t, roles, id) == Some(k) <==>
            Offers(t, roles, id, k) && forall j | Offers(t, roles, id, j) && j != k :: GoesFirst(t, k, j)
  {
    forall j ensures Offers(t, roles, id, j) <==> j in Candidates(t, roles, id) {
    }
    forall i, j | Offers(t, roles, id, i) && Offers(t, roles, id, j)
      ensures GoesFirst(t, i, j) <==> RanksBefore(t, i, j)
    {
    }
    if Offers(t, roles, id, k) && forall j | Offers(t, roles, id, j) && j != k :: GoesFirst(t, k, j) {
      var s := Selected(t, roles, id).value;
    }
  }

  lemma PresentableCanBeShown(t: Tables, roles: Roles, id: int, k: Key)
    requires Offers(t, roles, id, k)
    ensures Presentable(t, roles, id, k) <==> CanBeShown(t, roles, id, k)
  {
    assert HasImmichFallback(t, roles, id, k) <==>
           k.sourceKey in roles.fallback
           && exists j | j in t.sources :: Offers(t, roles, id, j) && t.sources[j].kind == Immich by {
      forall j ensures Offers(t, roles, id, j) <==> j in Candidates(t, roles, id) {
      }
    }
    BothReady(t, k);
  }

  lemma BothReady(t: Tables, k: Key)
    ensures |ReadyKinds(t, k)| == 2 <==> PreviewReady(t, k, Preview) && PreviewReady(t, k, DetailPreview)
  {
    var kinds := ReadyKinds(t, k);
    if PreviewReady(t, k, Preview) && PreviewReady(t, k, DetailPreview) {
      assert kinds == {Preview, DetailPreview};
    } else {
      var other := if PreviewReady(t, k, Preview) then Preview else DetailPreview;
      assert {other} == kinds + ({other} - kinds);
    }
  }

  // ---------------------------------------------------------------- row events

  /** One row-level change of a table the triggers watch. */
  datatype Event =
    | CanonicalInsert(id: int, canonical: CanonicalRow)
    | CanonicalUpdate(oldId: int, newId: int, canonical: CanonicalRow)
    | CanonicalDelete(id: int)
    | SourceInsert(key: Key, source: SourceRow)
    | SourceUpdate(oldKey: Key, newKey: Key, source: SourceRow)
    | SourceDelete(key: Key)
    | LocalInsert(key: Key, local: LocalAsset)
    | LocalUpdate(oldKey: Key, newKey: Key, local: LocalAsset)
    | LocalDelete(key: Key)
    | RenditionInsert(rkey: RenditionKey, rendition: Rendition)
    | RenditionUpdate(oldRkey: RenditionKey, newRkey: RenditionKey, rendition: Rendition)
    | RenditionDelete(rkey: RenditionKey)

  predicate CanMove<K, V>(m: map<K, V>, from: K, to: K) {
    from in m && (to == from || to !in m)
  }

  /** The event names existing rows and breaks no primary key. */
  predicate Legal(t: Tables, e: Event) {
    match e
    case CanonicalInsert(id, _) => id !in t.canonical
    case CanonicalUpdate(o, n, _) => CanMove(t.canonical, o, n)
    case CanonicalDelete(id) => id in t.canonical
    case SourceInsert(k, _) => k !in t.sources
    case SourceUpdate(o, n, _) => CanMove(t.sources, o, n)
    case SourceDelete(k) => k in t.sources
    case LocalInsert(k, _) => k !in t.locals
    case LocalUpdate(o, n, _) => CanMove(t.locals, o, n)
    case LocalDelete(k) => k in t.locals
    case RenditionInsert(k, _) => k !in t.renditions
    case RenditionUpdate(o, n, _) => CanMove(t.renditions, o, n)
    case RenditionDelete(k) => k in t.renditions
  }

  function Apply(t: Tables, e: Event): Tables {
    match e
    case CanonicalInsert(id, r) => t.(canonical := t.canonical[id := r])
    case CanonicalUpdate(o, n, r) => t.(canonical := (t.canonical - {o})[n := r])
    case CanonicalDelete(id) => t.(canonical := t.canonical - {id})
    case SourceInsert(k, r) => t.(sources := t.sources[k := r])
    case SourceUpdate(o, n, r) => t.(sources := (t.sources - {o})[n := r])
    case SourceDelete(k) => t.(sources := t.sources - {k})
    case LocalInsert(k, r) => t.(locals := t.locals[k := r])
    case LocalUpdate(o, n, r) => t.(locals := (t.locals - {o})[n := r])
    case LocalDelete(k) => t.(locals := t.locals - {k})
    case RenditionInsert(k, r) => t.(renditions := t.renditions[k := r])
    case RenditionUpdate(o, n, r) => t.(renditions := (t.renditions - {o})[n := r])
    case RenditionDelete(k) => t.(renditions := t.renditions - {k})
  }

  /** `after` is `before` without the row that left and with the row that came. */
  ghost predicate Changed<K(!new), V(!new)>(
      before: map<K, V>, after: map<K, V>, left: Option<K>, came: Option<(K, V)>)
  {
    && (forall k :: k in after <==> (came.Some? && came.value.0 == k) || (k in before && left != Some(k)))
    && (came.Some? && came.value.0 in after ==> after[came.value.0] == came.value.1)
    && (forall k | k in after && k in before && (came.None? || came.value.0 != k) :: after[k] == before[k])
  }

  /** Each event changes the one row it names and no other table. */
  lemma EventChangesItsRow(t: Tables, e: Event)
    ensures var t' := Apply(t, e);
            match e
            case CanonicalInsert(id, r) => Changed(t.canonical, t'.canonical, None, Some((id, r)))
            case CanonicalUpdate(o, n, r) => Changed(t.canonical, t'.canonical, Some(o), Some((n, r)))
            case CanonicalDelete(id) => Changed(t.canonical, t'.canonical, Some(id), None)
            case SourceInsert(k, r) => Changed(t.sources, t'.sources, None, Some((k, r)))
            case SourceUpdate(o, n, r) => Changed(t.sources, t'.sources, Some(o), Some((n, r)))
            case SourceDelete(k) => Changed(t.sources, t'.sources, Some(k), None)
            case LocalInsert(k, r) => Changed(t.locals, t'.locals, None, Some((k, r)))
            case LocalUpdate(o, n, r) => Changed(t.locals, t'.locals, Some(o), Some((n, r)))
            case LocalDelete(k) => Changed(t.locals, t'.locals, Some(k), None)
            case RenditionInsert(k, r) => Changed(t.renditions, t'.renditions, None, Some((k, r)))
            case RenditionUpdate(o, n, r) => Changed(t.renditions, t'.renditions, Some(o), Some((n, r)))
            case RenditionDelete(k) => Changed(t.renditions, t'.renditions, Some(k), None)
    ensures var t' := Apply(t, e);
            && (e.CanonicalInsert? || e.CanonicalUpdate? || e.CanonicalDelete? || t'.canonical == t.canonical)
            && (e.SourceInsert? || e.SourceUpdate? || e.SourceDelete? || t'.sources == t.sources)
            && (e.LocalInsert? || e.LocalUpdate? || e.LocalDelete? || t'.locals == t.locals)
            && (e.RenditionInsert? || e.RenditionUpdate? || e.RenditionDelete? || t'.renditions == t.renditions)
  {
  }

  /** The canonical IDs of one source row, none for NULL. */
  function LinkOf(t: Tables, k: Key): set<int> {
    if k in t.sources && t.sources[k].canonicalId.Some? then {t.sources[k].canonicalId.value} else {}
  }

  /**
   The IDs the trigger for `e` deletes and rebuilds. `t` is the state before the event and
   `t'` the state the AFTER trigger sees; the local triggers look the IDs up in `t'`.
   */
  function Affected(t: Tables, t': Tables, e: Event): set<int> {
    match e
    case CanonicalInsert(id, _) => {id}
    case CanonicalUpdate(o, n, _) => {o, n}
    case CanonicalDelete(id) => {id}
    case SourceInsert(k, _) => LinkOf(t', k)
    case SourceUpdate(o, n, _) => LinkOf(t, o) + LinkOf(t', n)
    case SourceDelete(k) => LinkOf(t, k)
    case LocalInsert(k, _) => LinkOf(t', k)
    case LocalUpdate(o, n, _) => LinkOf(t', o) + LinkOf(t', n)
    case LocalDelete(k) => LinkOf(t', k)
    case RenditionInsert(k, _) => LinkOf(t', k.asset)
    case RenditionUpdate(o, n, _) => LinkOf(t', o.asset) + LinkOf(t', n.asset)
    case RenditionDelete(k) => LinkOf(t', k.asset)
  }

  /** A trigger body: delete the affected rows, then insert their view rows. */
  function Refreshed(projection: map<int, Row>, t': Tables, roles: Roles, affected: set<int>): map<int, Row> {
    projection - affected + ViewRows(t', roles, affected)
  }

  // ------------------------------------------------------- the affected set covers

  lemma SourceEventsAreLocal(t: Tables, t': Tables, roles: Roles, id: int)
    requires t'.canonical == t.canonical && t'.locals == t.locals && t'.renditions == t.renditions
    requires forall k | k in t.sources && t.sources[k].canonicalId == Some(id) ::
               k in t'.sources && t'.sources[k] == t.sources[k]
    requires forall k | k in t'.sources && t'.sources[k].canonicalId == Some(id) ::
               k in t.sources && t'.sources[k] == t.sources[k]
    ensures ViewRow(t', roles, id) == ViewRow(t, roles, id)
  {
    var a, b := Candidates(t, roles, id), Candidates(t', roles, id);
    assert a == b;
    var s, s' := Selected(t, roles, id), Selected(t', roles, id);
    if s.Some? {
      assert IsBest(t', b, s.value);
      assert s' == s;
      assert ReadyKinds(t', s.value) == ReadyKinds(t, s.value);
      assert HasImmichFallback(t', roles, id, s.value) == HasImmichFallback(t, roles, id, s.value);
    }
  }

  lemma LocalEventsAreLocal(t: Tables, t': Tables, roles: Roles, id: int)
    requires t'.canonical == t.canonical && t'.sources == t.sources
    requires forall k | k in t.sources && t.sources[k].canonicalId == Some(id) ::
               ReadyKinds(t', k) == ReadyKinds(t, k)
    ensures ViewRow(t', roles, id) == ViewRow(t, roles, id)
  {
    assert Candidates(t', roles, id) == Candidates(t, roles, id);
    var s := Selected(t, roles, id);
    if s.Some? {
      assert IsBest(t', Candidates(t', roles, id), s.value);
      assert HasImmichFallback(t', roles, id, s.value) == HasImmichFallback(t, roles, id, s.value);
    }
  }

  /** An event can change the view only at the IDs its trigger refreshes. */
  lemma AffectedCovers(t: Tables, roles: Roles, e: Event, id: int)
    requires Legal(t, e)
    requires id !in Affected(t, Apply(t, e), e)
    ensures ViewRow(Apply(t, e), roles, id) == ViewRow(t, roles, id)
  {
    var t' := Apply(t, e);
    if e.CanonicalInsert? || e.CanonicalUpdate? || e.CanonicalDelete? {
      assert id in t'.canonical <==> id in t.canonical;
      assert Candidates(t', roles, id) == Candidates(t, roles, id);
      var s := Selected(t, roles, id);
      if s.Some? {
        assert IsBest(t', Candidates(t', roles, id), s.value);
        assert ReadyKinds(t', s.value) == ReadyKinds(t, s.value);
        assert HasImmichFallback(t', roles, id, s.value) == HasImmichFallback(t, roles, id, s.value);
      }
    } else if e.SourceInsert? || e.SourceUpdate? || e.SourceDelete? {
      SourceEventsAreLocal(t, t', roles, id);
    } else {
      forall k | k in t.sources && t.sources[k].canonicalId == Some(id)
        ensures ReadyKinds(t', k) == ReadyKinds(t, k)
      {
        assert id in LinkOf(t', k);
      }
      LocalEventsAreLocal(t, t', roles, id);
    }
  }

  /** The trigger-maintained projection stays equal to the from-scratch build. */
  lemma TriggerKeepsView(t: Tables, roles: Roles, e: Event)
    requires Legal(t, e)
    ensures var t' := Apply(t, e);
            Refreshed(View(t, roles), t', roles, Affected(t, t', e)) == View(t', roles)
  {
    var t' := Apply(t, e);
    var affected := Affected(t, t', e);
    var r, v := Refreshed(View(t, roles), t', roles, affected), View(t', roles);
    forall id ensures (id in r <==> id in v) && (id in r ==> r[id] == v[id]) {
      TriggerKeepsAt(t, roles, e, id);
    }
    assert r == v;
  }

  lemma TriggerKeepsAt(t: Tables, roles: Roles, e: Event, id: int)
    requires Legal(t, e)
    ensures var t' := Apply(t, e);
            var r, v := Refreshed(View(t, roles), t', roles, Affected(t, t', e)), View(t', roles);
            (id in r <==> id in v) && (id in r ==> r[id] == v[id])
  {
    var t' := Apply(t, e);
    var affected := Affected(t, t', e);
    if id !in affected {
      AffectedCovers(t, roles, e, id);
    }
    RefreshedAt(t, t', roles, affected, id);
  }

  /** A refresh takes affected IDs from the new view and leaves the others as they were. */
  lemma RefreshedAt(t: Tables, t': Tables, roles: Roles, affected: set<int>, id: int)
    requires id !in affected ==> ViewRow(t', roles, id) == ViewRow(t, roles, id)
    ensures var r, v := Refreshed(View(t, roles), t', roles, affected), View(t', roles);
            (id in r <==> id in v) && (id in r ==> r[id] == v[id])
  {
  }

  /** Rows carry the ID they are stored under, so the row set has unique IDs. */
  ghost predicate Keyed(m: map<int, Row>) {
    forall id | id in m :: m[id].id == id
  }

  lemma ViewIsKeyed(t: Tables, roles: Roles)
    ensures Keyed(View(t, roles))
  {
  }
}
