/**
 The catalog tables, one map per table, keyed by the table's primary key.

 TEXT keys and identifiers are integer codes in the order SQLite compares them, and
 stored timestamps are integers in the order of their instants.
 */
module CatalogTables {
  import opened Wrappers
  import opened GalleryRows

  datatype Visibility = Active | PermissionBlocked | OutOfScope | Missing

  datatype Kind = LocalFilesystem | Immich | OtherKind

  datatype Algorithm = Sha1 | Sha1Path | UnknownAlgorithm

  /** A SHA-1 column: the stored text and the form it normalizes to, 0 when it is not a SHA-1. */
  datatype ShaText = ShaText(text: int, normal: nat)

  /** Primary key of catalog_assets (source key, upstream asset ID) and of local_assets. */
  datatype Key = Key(sourceKey: int, assetId: int)

  datatype SourceRow = SourceRow(
    kind: Kind,
    canonicalId: Option<int>,
    algorithm: Algorithm,
    sha1: Option<ShaText>,
    size: Option<int>,
    canonicalSha1: Option<ShaText>,
    canonicalSize: Option<int>,
    media: Media,
    filename: string,
    capturedAt: int,
    duration: Option<string>,
    visibility: Visibility,
    favorite: bool,
    place: Option<string>,
    description: Option<string>,
    firstSeenAt: int,
    updatedAt: int
  )

  datatype CanonicalRow = CanonicalRow(
    sha1: Option<ShaText>,
    size: Option<int>,
    media: Media,
    filename: string,
    capturedAt: int,
    duration: Option<string>,
    visibility: Visibility,
    primary: Key,
    sourceCount: nat,
    duplicateCount: nat,
    favorite: bool,
    place: Option<string>,
    description: Option<string>,
    firstSeenAt: int,
    updatedAt: int
  )

  datatype LocalAsset = LocalAsset(sha1: int, active: bool, thumbnailReady: bool)

  datatype RenditionKind = Preview | DetailPreview | VideoFrame

  datatype RenditionKey = RenditionKey(asset: Key, kind: RenditionKind)

  datatype Rendition = Rendition(ready: bool, hasPath: bool, sourceSha1: Option<int>)

  datatype Tables = Tables(
    canonical: map<int, CanonicalRow>,
    sources: map<Key, SourceRow>,
    locals: map<Key, LocalAsset>,
    renditions: map<RenditionKey, Rendition>
  )
}
