# A verified model of the Timich catalog engine

The catalog keeps photos and videos of several sources in SQLite tables and serves a gallery,
semantic search and background jobs from them. Nearly all of its hard code is a fast or
incremental form that has to agree with a simple one, or a protocol over durable rows that
has to survive interleaving, crashes and retries. This project models that code and proves
the agreement, for all tables, requests, runs and interleavings.

Tables are maps keyed by their primary key, SQL queries are functions over them, and a
statement or trigger body is one step. Code that changes things step by step is a class with
those tables as fields, or a method with loops, proved against a function of its inputs; the
lemmas are about those functions.

| file | what it models |
|---|---|
| `GalleryRows`, `GalleryPaging` | gallery order, selections, pages and what following pages delivers |
| `CatalogTables`, `GalleryView`, `GalleryProjection` | the view of the gallery, its 12 triggers, the materialized rows over whole runs, the storage migration |
| `DayIndex`, `GallerySearch` | the per-day counts and the search that seeks by position |
| `GalleryTimeline` | the numbered timeline of Immich-only catalogs |
| `ImmichPager` | the mirror pager against a server that changes between requests |
| `CanonicalAssets`, `CanonicalStore`, `CanonicalCounts` | deduplication: rebuild, local refresh, counts |
| `Text`, `CleanPaths`, `ExternalPaths` | path cleaning, joining and relative paths |
| `ExternalIdentity`, `ExternalPrecedence`, `ExternalReconcile`, `ExternalGain` | identities borrowed through path mappings, which file decides a row, and the three reconcilers |
| `ExternalConfigured`, `ExternalRuns` | what validation of the mappings ensures, the mirror's own lookup, and all writers over whole runs |
| `PublishJobs`, `PublishProtocol` | the leased publish queue, statement by statement and over whole runs |
| `EmbeddingPool` | the embedding worker pool |
| `SemanticResults`, `SemanticRanking` | chunked resolution with early stop, ranking, promotion, diversification, paging |
| `VerificationWindows`, `VerificationSlice` | daily verification windows and one slice of one |
| `Wrappers`, `IntegerSets` | shared helpers |

Some properties hold only under a condition. Each has a lemma with an input that fails and a
lemma with the exact condition:

- A local refresh and a full rebuild can differ in `first_seen_at`
  (`CanonicalCounts.FirstSeenCanDiffer`, `CanonicalCounts.FirstSeenExactIff`).
- A publisher that no longer owns a job can change it when a completed job is started over
  while someone still remembers it (`PublishProtocol.StartingOverLosesTheFence`), and exactly
  then (`PublishProtocol.StartingOverIsSafeIff`).
- A publish can commit over an asset change it has not seen
  (`PublishProtocol.MissingRowHidesAChange`), exactly when the state row was missing as the
  generation was read and a change came before it was written
  (`PublishProtocol.CommitsOnlyUnchanged`).
- A verification window can report more than one outcome beyond its processed files
  (`VerificationWindows.CrashesCountTwice`, `VerificationWindows.OutcomesWithinOneIff`).
- Borrowed identities can differ from those of a full reconcile. Configuration validation refuses
  relative, root and overlapping prefixes, so one mapping at most concerns a row, and these cases
  are left:
  - a loss misses, and a gain overrules, when file names differ in surrounding white space
    (`ExternalConfigured.LossCanDisagree`, `ExternalConfigured.LossEqualsFull`;
    `ExternalGain.GainCanOverrule`, `ExternalGain.GainEqualsFullIff`, `ExternalGain.GainIsFull`);
  - a gain works with the media type of the file's name, the reconcilers with the one registered
    when the same bytes were first seen (`ExternalGain.GainCanMisread`,
    `ExternalGain.GainReconcilesIff`);
  - the mirror's writers ignore the media type and treat white space and empty files in their own
    ways (`ExternalRuns.MirrorCanMisread`, `ExternalRuns.MirrorReconcilesIff`).

  `ExternalRuns.RunReconcilesIff` puts them together: over a whole run all rows stay reconciled
  exactly when each event meets its condition.
- The path round trips lose some paths (`ExternalPaths.JoinThenRelative`,
  `ExternalPaths.RelativeThenJoin`): `ExternalPaths.LeadingSpaceFails` with an accepted prefix;
  the prefix "/" of `ExternalPaths.RootPrefixFails` is an input of the path functions alone, which
  validation refuses.

Both failing publish runs interleave the statements of two callers. Every caller in the runtime
holds `semanticWorkMu` over enqueue, publish, activation and backfill
(internal/runtime/semantic_candidate_backfill.go:754, 824; internal/runtime/agent_runtime.go:2926),
so they need a second process on the same catalog or a caller without that lock.

A list that mixed canonical and source candidates would resolve differently for different chunk
sizes (`SemanticResults.ChunkSizeIrrelevantIff`); the search never builds one, because it reads
either the canonical corpus or the data sources' (`SemanticRanking.SearchesAreOfOneKind`).

## Model

| member | source | states |
|---|---|---|
| `GalleryRows.SortedUnique` | internal/catalog/catalog_gallery_projection.go:33-82 | capture time descending then ID ascending is a strict total order on rows: two sorted listings of the same rows are equal, so every query below has one result |
| `GalleryRows.SelectIsFilter` | internal/catalog/catalog_assets.go:52-57 | selecting rows and then sorting is sorting and then filtering, and the count query counts that list |
| `GalleryRows.Sort` | internal/catalog/catalog_gallery_projection.go:84-107 | taking the first remaining row again and again yields the one sorted listing of the table |
| `GalleryView.AffectedCovers` | internal/catalog/catalog_gallery_projection.go:316-389 | for each of the 12 row events, every canonical asset whose view row changes is in the trigger's affected IDs |
| `GalleryView.EventChangesItsRow` | internal/catalog/catalog_gallery_projection.go:316-389 | each of the 12 events changes the one row it names and no other table |
| `GalleryView.SourceEventsAreLocal` | internal/catalog/catalog_gallery_projection.go:328-339 | an insert, update or delete of a source row can change the view only at its old and new canonical link |
| `GalleryView.LocalEventsAreLocal` | internal/catalog/catalog_gallery_projection.go:340-389 | with canonical and source rows unchanged, the view can change only at a canonical asset that has a linked source row whose kinds of ready preview changed; that an event on local assets or renditions changes them only at its old and new key is part of `AffectedCovers` |
| `GalleryView.TriggerKeepsView` | internal/catalog/catalog_gallery_projection.go:140-227 | deleting the affected IDs and re-running the restricted insert query turns the view of the old tables into the view of the new ones |
| `GalleryView.ViewMeaning` | internal/catalog/catalog_gallery_projection.go:140-214 | a row is in the view exactly when its canonical asset is active, it shows that asset under the first copy on offer (Local before Immich, then by key), and a Local copy has a ready thumbnail and both previews of its present content or a configured Immich fallback |
| `GalleryProjection.StepKeepsFresh` | internal/catalog/catalog_gallery_projection.go:216-227 | one row event or scope change keeps the projection equal to the from-scratch view, and the scope is the last one ensured |
| `GalleryProjection.RunsServeTheView` | internal/catalog/catalog_gallery_projection.go:316-389 | over every run of row events and scope changes the projection equals the from-scratch build over the current tables |
| `GalleryProjection.GalleryStore.constructor` | internal/catalog/catalog_gallery_projection.go:273-302 | the empty schema is a valid state |
| `GalleryProjection.GalleryStore.DeleteRow` | internal/catalog/catalog_gallery_projection.go:240-252 | deleting a projection row runs the day-delete trigger and leaves the day index equal to the histogram |
| `GalleryProjection.GalleryStore.InsertRow` | internal/catalog/catalog_gallery_projection.go:229-238 | inserting a projection row runs the day-insert trigger and leaves the day index equal to the histogram |
| `GalleryProjection.GalleryStore.DeleteRows` | internal/catalog/catalog_gallery_projection.go:221-223 | the trigger's first statement removes exactly the affected rows, one row and one day update at a time |
| `GalleryProjection.GalleryStore.InsertViewRows` | internal/catalog/catalog_gallery_projection.go:140-214 | the trigger's second statement adds exactly the view rows of the affected IDs |
| `GalleryProjection.GalleryStore.Fire` | internal/catalog/catalog_gallery_projection.go:216-227 | applying an event and firing its trigger is the step of the value model, and both indexes stay valid |
| `GalleryProjection.GalleryStore.EnsureProjection` | internal/catalog/catalog_gallery_projection.go:443-500 | a matching scope is kept; without a mixed configuration the projection is cleared, and otherwise it is the view for the wanted sources with its day index |
| `GalleryProjection.GalleryStore.MoveRow` | internal/catalog/catalog_gallery_projection.go:254-271 | the cross-day update trigger keeps the day index equal to the histogram |
| `GalleryProjection.GalleryStore.EnsureDayIndex` | internal/catalog/catalog_gallery_projection.go:399-441 | counting the rows day by day establishes the histogram whatever the counts were before, and current counts are kept |
| `GalleryProjection.CountDays` | internal/catalog/catalog_gallery_projection.go:399-441 | adding rows to the day counts one by one, in any order, gives their histogram |
| `GalleryProjection.GalleryStore.MigrateStorage` | internal/catalog/catalog_gallery_migration.go:269-379 | unknown or missing triggers, a referring view and a foreign key are each refused with everything unchanged; otherwise the migration keeps rows and triggers, reports the number of rows and re-establishes the day index |
| `GalleryProjection.GalleryStore.ReplaceLayout` | internal/catalog/catalog_gallery_migration.go:331-369 | whatever the copy holds, comparing both ways puts it in place exactly when it has the same rows, and then the day index is the histogram |
| `GalleryProjection.CopyRows` | internal/catalog/catalog_gallery_migration.go:331-348 | the copy passes both EXCEPT checks, in both directions, because it is equal to the original |
| `DayIndex.HistogramUnique` | internal/catalog/catalog_gallery_projection.go:304-307 | day counts that are right on every day and have no zero entry are the histogram |
| `DayIndex.InsertKeepsHistogram` | internal/catalog/catalog_gallery_projection.go:229-238 | the insert trigger turns the histogram of the old rows into the histogram of the new ones |
| `DayIndex.DeleteKeepsHistogram` | internal/catalog/catalog_gallery_projection.go:240-252 | the delete trigger does so for a removed row, dropping the day's entry with its last row |
| `DayIndex.UpdateKeepsHistogram` | internal/catalog/catalog_gallery_projection.go:254-271 | the update trigger does so for a row that moves to another day |
| `DayIndex.SumOfHistogram` | internal/catalog/catalog_gallery_projection.go:27-28 | the day counts sum up to the number of rows |
| `DayIndex.SumOfNewer` | internal/catalog/catalog_gallery_projection.go:33-42 | the prefix sum over newer days counts the rows of newer days |
| `DayIndex.DayAtOffsetFinds` | internal/catalog/catalog_gallery_projection.go:44-57 | the day found for an offset is the one whose span of counts contains it |
| `DayIndex.SpanOfRows` | internal/catalog/catalog_gallery_projection.go:44-57 | over the histogram that span is the span of the day's rows in the listing |
| `GallerySearch.PositionBeforeIsPosition` | internal/catalog/catalog_gallery_projection.go:33-42 | newer days plus the partial day give the number of rows at or after the boundary |
| `GallerySearch.PositionCuts` | internal/catalog/catalog_gallery_projection.go:702-721 | that number is where the boundary cuts the sorted listing |
| `GallerySearch.AnchorIsRow` | internal/catalog/catalog_gallery_projection.go:723-761 | the anchor found through the day index is the row of the sorted listing at the offset, and there is none past its end |
| `GallerySearch.AfterAnchorIsSlice` | internal/catalog/catalog_gallery_projection.go:65-82 | the limited same-time and older branches, merged and limited again, are the slice of the listing from the anchor on |
| `GallerySearch.RangeIsBetweenPositions` | internal/catalog/catalog_gallery_projection.go:542-561 | a capture-time range selects exactly the listing between the positions of its bounds |
| `GallerySearch.FindAnchor` | internal/catalog/catalog_gallery_projection.go:723-761 | computes the listing's row at an offset, or finds none |
| `GallerySearch.ReadAfterAnchor` | internal/catalog/catalog_gallery_projection.go:65-82 | reads the rows from an anchor on with two bounded branches |
| `GallerySearch.SeekPage` | internal/catalog/catalog_gallery_projection.go:606-624 | seeking reads the same rows as LIMIT and OFFSET over the sorted listing |
| `GallerySearch.SeekBounds` | internal/catalog/catalog_gallery_projection.go:542-561 | the start and end positions bound exactly the rows that match a capture-time filter |
| `GallerySearch.FetchRange` | internal/catalog/catalog_gallery_projection.go:562-605 | a page of a capture-time range and its total are those of filter, sort, slice |
| `GallerySearch.FetchQuery` | internal/catalog/catalog_gallery_projection.go:562-635 | the query branch fetches the same slice and the exact count |
| `GallerySearch.SearchTable` | internal/catalog/catalog_gallery_projection.go:533-699 | every branch of the search returns the page of the general query |
| `GallerySearch.SearchProjection` | internal/catalog/catalog_gallery_projection.go:502-700 | a page is served exactly when a mixed configuration is wanted and stored, and then it is the general page over the from-scratch view of the current tables |
| `GalleryPaging.PageIsSlice` | internal/catalog/catalog_assets.go:33-130 | a page is a slice of the matching list, the next index is there exactly when rows remain, Exact totals are exact and LowerBound totals never exceed the truth |
| `GalleryPaging.WhenTotalsAreExact` | internal/catalog/catalog_assets.go:97-130 | totals are exact on the first page, with any filter, and on the last page that has rows; elsewhere they promise one row beyond the page, or nothing beyond the end |
| `GalleryPaging.PageHoldsWhatWasAskedFor` | internal/catalog/catalog_gallery_projection.go:763-790 | every item of a page has one of the asked media types and was captured in the asked interval |
| `GalleryPaging.FollowDeliversRest` | internal/catalog/catalog_assets.go:97-130 | following next-page indexes from any page delivers exactly the rest of the matching list |
| `GalleryPaging.PagesTile` | internal/catalog/catalog_assets.go:97-130 | from page 0 every row of the asked media types and interval is delivered once and in order |
| `GalleryTimeline.RankOneIsSelected` | internal/catalog/catalog_gallery_timeline.go:112-126 | rank 1 of the window function is the source the general query's correlated subquery selects |
| `GalleryTimeline.RankSources` | internal/catalog/catalog_gallery_timeline.go:112-126 | one pass over the source rows finds the row of rank 1 of every canonical asset |
| `GalleryTimeline.SelectRows` | internal/catalog/catalog_gallery_timeline.go:112-144 | the joined rows are the rows of the general Immich-only query |
| `GalleryTimeline.Replace` | internal/catalog/catalog_gallery_timeline.go:127-176 | after a rebuild the generation's positions are exactly 0 to total - 1 in gallery order and no other generation is left |
| `GalleryTimeline.FirstBeforeIsPosition` | internal/catalog/catalog_gallery_timeline.go:398-417 | the first row before a boundary has the number of rows at or after it as its position |
| `GalleryTimeline.FirstPositionBefore` | internal/catalog/catalog_gallery_timeline.go:398-417 | returns the number of rows at or after the boundary, the total when there is none before it |
| `GalleryTimeline.Bounds` | internal/catalog/catalog_gallery_timeline.go:274-291 | the two positions bound exactly the rows that match a capture-time filter |
| `GalleryTimeline.ReadPositions` | internal/catalog/catalog_gallery_timeline.go:311-320 | reading by position is slicing the listing |
| `GalleryTimeline.FetchFiltered` | internal/catalog/catalog_gallery_timeline.go:293-330 | with a media filter the rows and the count are those of filter, sort, slice |
| `GalleryTimeline.ReadPage` | internal/catalog/catalog_gallery_timeline.go:269-396 | every branch returns the page of the general query over the numbered rows |
| `GalleryTimeline.TimelineStore.Rebuild` | internal/catalog/catalog_gallery_timeline.go:84-178 | with only Immich sources a rebuild serves them at the catalog's present generation under the next timeline generation, and otherwise it clears everything |
| `GalleryTimeline.TimelineStore.Ensure` | internal/catalog/catalog_gallery_timeline.go:43-82 | afterwards the state serves the caller exactly when only Immich sources are configured, and otherwise there is none |
| `GalleryTimeline.TimelineStore.Commit` | internal/catalog/catalog_store.go:297-323 | a commit that advances the generation with every canonical change leaves a timeline that shows the new tables exactly when only Immich sources are configured |
| `GalleryTimeline.TimelineStore.Search` | internal/catalog/catalog_gallery_timeline.go:242-396 | a page is served exactly when scope and generation match, and then it is the page of the general query it replaces |
| `ImmichPager.FilterInPlace` | internal/catalog/immich_mirror_pager.go:111-124 | compacting the page array in place leaves exactly the items not seen in this or a newer version, in order, and the new seen map is the page's |
| `ImmichPager.FindOldest` | internal/catalog/immich_mirror_pager.go:84-92 | finds the oldest capture time, or that an item has none |
| `ImmichPager.ImmichMirrorPager.HandlePage` | internal/catalog/immich_mirror_pager.go:77-125 | boundary, size growth, deferred error and filter update the fields as the value model says |
| `ImmichPager.ImmichMirrorPager.Step` | internal/catalog/immich_mirror_pager.go:30-125 | one call follows the value model and fails exactly for a pending incompleteness error, a failed request, an empty page with a continuation or one other than page 2, and a continued page with an asset without capture time |
| `ImmichPager.SeenStaysYielded` | internal/catalog/immich_mirror_pager.go:109-124 | in every run, whatever the seen map holds was yielded in a version at least as recent |
| `ImmichPager.NewerVersionsAreYielded` | internal/catalog/immich_mirror_pager.go:109-124 | adjacent-page dedup never drops a version newer than one already yielded |
| `ImmichPager.RepeatIsYieldedIffNewer` | internal/catalog/immich_mirror_pager.go:109-124 | an asset the page before showed is yielded again exactly when it was updated since, and any other asset always |
| `ImmichPager.NothingIsSkipped` | internal/catalog/immich_mirror_pager.go:93-107 | an asset that keeps matching with one capture time is yielded or still inside the remaining range |
| `ImmichPager.CompletedRunLosesNothing` | internal/catalog/immich_mirror_pager.go:30-125 | when a run completes, every such asset was yielded, whatever changed on the server in between |
| `ImmichPager.ContinueMakesProgress` | internal/catalog/immich_mirror_pager.go:93-107 | every continued page lowers the boundary by a millisecond or more, or grows the page, or schedules the error |
| `ImmichPager.FetchAll` | internal/catalog/service.go:2166-2190 | the caller's loop terminates on every server with capture times bounded below |
| `ImmichPager.OverfullIsDense` | internal/catalog/immich_mirror_pager.go:96-104 | over a server whose continued pages are full and repeat nothing, the incompleteness error needs a page of 1000 matching assets in one closed millisecond and one more asset left |
| `ImmichPager.SparseRunsSucceed` | internal/catalog/immich_mirror_pager.go:30-125 | whatever changes between requests, no run fails as long as the server cooperates and its assets are sparse in that sense at every request |
| `ImmichPager.MirrorAll` | internal/catalog/service.go:2166-2190 | while no closed millisecond holds 1000 assets, a cooperating server is read to its end without error, and exactly its assets are yielded |
| `ImmichPager.DenseMillisecondNeverCompletes` | internal/catalog/immich_mirror_pager.go:96-104 | while more than 1000 matching assets share a millisecond no run completes, so the checkpoint cannot pass them |
| `CanonicalAssets.RefreshSettles` | internal/catalog/catalog_canonical.go:207-237 | refreshing one pending row makes its old and new group right and leaves the other pending rows pending |
| `CanonicalAssets.RefreshAllSettles` | internal/catalog/catalog_canonical.go:207-237 | refreshing any sequence that covers the changed rows leaves a consistent catalog |
| `CanonicalAssets.RebuildIsConsistent` | internal/catalog/catalog_canonical.go:162-205 | a full rebuild makes links and aggregates right from any state |
| `CanonicalAssets.ConsistentIsUnique` | internal/catalog/catalog_canonical.go:258-373 | source rows determine the canonical rows of a consistent catalog, apart from `first_seen_at` and `updated_at` |
| `CanonicalAssets.RefreshEqualsRebuild` | internal/catalog/catalog_canonical.go:207-237 | after any change or insert of rows, local refreshes give the links and canonical rows of a full rebuild |
| `CanonicalAssets.BatchRebuildIsConsistent` | internal/catalog/catalog_external_identity.go:432-498 | relinking changed rows first and rebuilding all touched groups afterwards also leaves a consistent catalog |
| `CanonicalAssets.OneAssetIffSameContent` | internal/catalog/catalog_canonical.go:376-396 | in a consistent catalog rows of one media type, SHA-1 and size, borrowed or their own, are one canonical asset, and, if the ID hash has no collision, only those |
| `CanonicalAssets.CanonicalRowMeaning` | internal/catalog/catalog_canonical.go:289-373 | each canonical row shows its first source (active before hidden, Local before Immich, latest capture, lowest key), counts all of them, is a favorite when one is, and has the first known duration |
| `CanonicalStore.SortSources` | internal/catalog/catalog_canonical.go:289-307 | insertion into rank order sorts a group's rows whatever order they were read in |
| `CanonicalStore.PickDuration` | internal/catalog/catalog_canonical.go:310-321 | the duration is the primary row's, or, when that is blank, the non-blank one of the best-ranked active row that has one |
| `CanonicalStore.ScanGroup` | internal/catalog/catalog_canonical.go:322-329 | one pass over the sorted rows finds the earliest first-seen time and whether any row is a favorite |
| `CanonicalStore.Store.RebuildCanonicalId` | internal/catalog/catalog_canonical.go:258-373 | rebuilds one canonical row from its group, keeping `first_seen_at` on conflict, and deletes an empty group's row |
| `CanonicalStore.Store.RebuildCanonicalIds` | internal/catalog/catalog_canonical.go:239-256 | rebuilds a set of groups in any order with the same result |
| `CanonicalStore.Store.RefreshAsset` | internal/catalog/catalog_canonical.go:207-237 | relinks one row and rebuilds its old and new group |
| `CanonicalStore.Store.RebuildAll` | internal/catalog/catalog_canonical.go:162-205 | relinks every row, rebuilds every group and leaves a consistent catalog |
| `CanonicalCounts.DeduplicationConserves` | internal/catalog/catalog_canonical.go:67-99 | in a consistent catalog source rows are canonical assets plus duplicates, with no unlinked or orphan rows and no repair needed |
| `CanonicalCounts.ActiveAssetsAreCounted` | internal/catalog/catalog_canonical.go:67-99 | the active assets are those with an active source row |
| `CanonicalCounts.RepairIsDueIff` | internal/catalog/catalog_canonical.go:67-99 | a repair is due exactly when some source row has no canonical row or some canonical row no source |
| `CanonicalCounts.LinkedRowsAreCounted` | internal/catalog/catalog_canonical.go:67-99 | the rows linked to any set of canonical assets number those assets plus their duplicates |
| `CanonicalCounts.ActiveIffSomeSourceIs` | internal/catalog/catalog_canonical.go:289-308 | a canonical asset is active exactly when one of its sources is, because its best-ranked source decides |
| `CanonicalCounts.ShortcutIsGeneralTotal` | internal/catalog/catalog_assets.go:166-195 | distinct links of active configured Immich sources are the active canonical assets that have such a source |
| `CanonicalCounts.ShortcutCountsTheView` | internal/catalog/catalog_assets.go:166-195 | the shortcut total is the number of rows of the gallery view of the same Immich sources |
| `CanonicalCounts.FirstSeenExactIff` | internal/catalog/catalog_canonical.go:322-351 | after a changed row is refreshed, `first_seen_at` is what a rebuild from nothing gives exactly when the row neither brings an earlier time into an existing group nor takes the earliest time out of one |
| `CanonicalCounts.FirstSeenCanDiffer` | internal/catalog/catalog_canonical.go:322-351 | one earlier copy that joins an existing group makes them differ |
| `CleanPaths.CleanIsIdempotent` | internal/catalog/catalog_external_identity.go:83-89 | cleaning a cleaned path changes nothing |
| `CleanPaths.CleanNeverGrows` | internal/catalog/catalog_external_identity.go:83-89 | cleaning a non-empty path never makes it longer |
| `CleanPaths.CleanDropsInside` | internal/catalog/catalog_external_identity.go:83-89 | repeated slashes count as one, "." is dropped, and ".." takes back the name before it |
| `CleanPaths.CleanDropsOutside` | internal/catalog/catalog_external_identity.go:83-89 | a ".." above the root, a final slash and a leading "." are dropped |
| `ExternalPaths.JoinThenRelative` | internal/catalog/catalog_external_identity.go:91-131 | joining prefix and relative path and taking the relative path returns it exactly when the prefix is not the root, not the current directory and has no leading white space, and the path has no surrounding white space |
| `ExternalPaths.RelativeThenJoin` | internal/catalog/catalog_external_identity.go:91-131 | taking the relative path and joining it returns the cleaned original exactly when the relative path has no surrounding white space |
| `ExternalPaths.RootPrefixFails` | internal/catalog/catalog_external_identity.go:121-131 | with the root as prefix, which only the path functions accept, the round trip loses the path |
| `ExternalPaths.LeadingSpaceFails` | internal/catalog/catalog_external_identity.go:121-131 | a file name that starts with a space does not survive the round trip |
| `ExternalIdentity.RecordsIffServes` | internal/catalog/catalog_external_identity.go:288-334 | for any mapping, file and original path, matching by path checksum and matching by relative path coincide exactly when the match, if there is one, is plain: trimmed path, stable prefix, normal original path |
| `ExternalIdentity.UnhitKeepsDesired` | internal/catalog/catalog_external_identity.go:544-591 | a row no lost path reaches wants the same file before and after |
| `ExternalIdentity.FullReconciles` | internal/catalog/catalog_external_identity.go:240-430 | a full reconcile gives every mapped row its desired identity |
| `ExternalIdentity.SingleFileAgreesIff` | internal/catalog/catalog_external_identity.go:91-131 | for one mapping and file the two reconcilers agree exactly when the path is trimmed and the prefix stable |
| `ExternalPrecedence.WinnerIsLastFile` | internal/catalog/catalog_external_identity.go:288-334 | for one mapping the matching file with the highest location ID wins |
| `ExternalPrecedence.ResolveIsLastPick` | internal/catalog/catalog_external_identity.go:288-334 | over all mappings the last one with a match wins |
| `ExternalPrecedence.DesiredIsLastRecorded` | internal/catalog/catalog_external_identity.go:288-334 | the desired file is that of the last pair matched by checksum |
| `ExternalPrecedence.ReplacementIsLastServed` | internal/catalog/catalog_external_identity.go:603-639 | the replacement is the file of the last pair of a mapping and a file matched by path: last mapping first, then highest location ID |
| `ExternalPrecedence.LossEqualsFullIff` | internal/catalog/catalog_external_identity.go:505-672 | for any files and mappings, the loss reconcile equals a full one exactly when, for each row a lost path reaches, the last pair matched by checksum and the last one matched by path have the same content |
| `ExternalPrecedence.LossReconcilesIff` | internal/catalog/catalog_external_identity.go:505-672 | every mapped row has its desired identity after a loss reconcile exactly under that condition |
| `ExternalPrecedence.BorrowerJoinsItsFile` | internal/catalog/catalog_canonical.go:376-396 | where rows are reconciled and the catalog is consistent, a mapped row and the Local source row of its file are one canonical asset |
| `ExternalConfigured.Validate` | internal/config/config.go:1293-1315 | the nested loops accept the mappings exactly when every prefix is absolute and not the root and no two of one Immich source are equal or nested, and otherwise name the first mapping at fault |
| `ExternalConfigured.OneMapping` | internal/config/config.go:1302-1310 | for accepted mappings, two records of one row come from the same mapping and from one trimmed path of one root |
| `ExternalConfigured.DesiredIsTheMatch` | internal/catalog/catalog_external_identity.go:288-334 | so, where trimmed paths are distinct, a file that matches a row is the one a full reconcile wants |
| `ExternalConfigured.ReplacementIsDesired` | internal/catalog/catalog_external_identity.go:603-639 | for accepted mappings and a row a lost path reaches, the loss reconcile's replacement is the file the full reconcile wants when no matching file has white space around its path; where trimmed paths are distinct it otherwise finds none although there is one |
| `ExternalConfigured.LossEqualsFull` | internal/catalog/catalog_external_identity.go:505-672 | for accepted mappings the loss reconcile leaves the source rows of a full reconcile over the new Local state when no file that matches a reached row has white space around its path, and, where trimmed paths are distinct, only then |
| `ExternalConfigured.LossReconciles` | internal/catalog/catalog_external_identity.go:505-672 | every mapped row has its desired identity again under that condition, and, where trimmed paths are distinct, only then |
| `ExternalConfigured.LossCanDisagree` | internal/catalog/catalog_external_identity.go:544-639 | with the accepted prefix "/p" and the files " a.jpg" and "a.jpg" a loss of the second leaves the row without identity, while a full reconcile gives it that of the first |
| `ExternalReconcile.FindReplacement` | internal/catalog/catalog_external_identity.go:603-639 | the loop over mappings finds the replacement |
| `ExternalReconcile.FindAffected` | internal/catalog/catalog_external_identity.go:544-591 | the loops over lost paths and mappings find every row a lost path reaches, with the path found last |
| `ExternalReconcile.ReconcileLoss` | internal/catalog/catalog_external_identity.go:505-672 | settling the affected rows one by one gives the loss reconcile's rows and keeps the catalog consistent after each |
| `ExternalReconcile.FindDesired` | internal/catalog/catalog_external_identity.go:288-334 | INSERT OR REPLACE over mappings and files in ID order records what every row should have |
| `ExternalReconcile.ReconcileAll` | internal/catalog/catalog_external_identity.go:240-430 | the full reconcile writes the desired identities, relinks the changed rows, and leaves a consistent catalog with every mapped row reconciled |
| `ExternalReconcile.ReconcilersAgree` | internal/catalog/catalog_external_identity.go:240-672 | both reconcilers leave the same source rows exactly when the last pairs of the reached rows agree, and then the same links and canonical rows |
| `ExternalGain.GainEqualsFullIff` | internal/catalog/catalog_external_identity.go:675-755 | a gain equals a full reconcile exactly when, for every row the file reaches, each match of other content is followed by a later match, in order of mapping and location ID, of the file's content |
| `ExternalGain.NobodyLaterSuffices` | internal/catalog/catalog_external_identity.go:675-755 | that holds in particular when no later mapping, and no higher location of the same one, matches with other content |
| `ExternalGain.GainIsFull` | internal/catalog/catalog_external_identity.go:675-755 | for accepted mappings and distinct trimmed paths a gain with the registered media type is a full reconcile, whatever the files and rows |
| `ExternalGain.GainReconcilesIff` | internal/catalog/catalog_external_identity.go:675-755 | under those conditions a gain keeps every mapped row reconciled exactly when the media type it works with is the registered one or no row shows the file |
| `ExternalGain.GainCanOverrule` | internal/catalog/catalog_external_identity.go:675-755 | with the accepted prefix "/p" and the active files " a.jpg" and "a.jpg" of different content, a gain of the first takes the row away from the second |
| `ExternalGain.GainCanMisread` | internal/catalog/local_filesystem_metadata.go:748-757 | bytes first registered as a film and found again as "a.jpg": the gain gives an image row an identity that a full reconcile does not |
| `ExternalGain.ReconcileGain` | internal/catalog/catalog_external_identity.go:675-755 | the loop over mappings settles exactly the rows the file reaches and keeps the catalog consistent |
| `ExternalRuns.FindMappedPlace` | internal/catalog/catalog_external_identity.go:107-120 | the loop finds the first mapping of the Immich source with the original path below its prefix |
| `ExternalRuns.MirrorFileIsFound` | internal/catalog/catalog_external_identity.go:150-180 | for accepted mappings and distinct trimmed paths the mirror finds a file exactly when some mapping has one at the path, and then there is no other |
| `ExternalRuns.MirrorReconcilesIff` | internal/catalog/catalog_external_identity.go:150-180 | the row an incremental or staged mirror write leaves has its desired identity exactly when every file found has the row's media type, a path without surrounding white space, a normal original path and, for the incremental writer, a positive size, and every matching file has a trimmed path |
| `ExternalRuns.MirrorCanMisread` | internal/catalog/catalog_store.go:1636-1663 | bytes of a film at the path of an image row: either writer gives the row an identity that a full reconcile does not |
| `ExternalRuns.WritersCanDiffer` | internal/catalog/catalog_store.go:1622-1650 | for an original path with a space before its file name the staged writer finds the file without it and the incremental writer none |
| `ExternalRuns.StepReconcilesIff` | internal/catalog/catalog_external_identity.go:240-755 | a configuration change, loss, gain or mirror write keeps all mapped rows reconciled exactly when it meets its condition; it changes what its kind changes and nothing else, and with an outdated configuration a writer changes nothing |
| `ExternalRuns.RunReconcilesIff` | internal/catalog/catalog_external_identity.go:240-755 | from reconciled rows, all mapped rows stay reconciled throughout a run of such events exactly when each event meets its condition |
| `PublishJobs.PublishStore.Enqueue` | internal/catalog/catalog_semantic_store.go:1090-1146 | inserts a queued job, starts a completed one over, and leaves the progress of any other job alone |
| `PublishJobs.PublishStore.RecoverExpired` | internal/catalog/catalog_semantic_store.go:1368-1386 | exactly the running jobs with an expired lease become failed and due |
| `PublishJobs.PublishStore.ClaimNext` | internal/catalog/catalog_semantic_store.go:1319-1366 | recovers, then claims the first source in order with a due job |
| `PublishJobs.PublishStore.Finalize` | internal/catalog/catalog_semantic_store.go:1414-1450 | commits exactly for the owner over an unchanged asset generation; then state and job change together and the job is never claimed again, otherwise neither changes |
| `PublishJobs.PublishStore.Renew` | internal/catalog/catalog_semantic_store.go:1512-1533 | for the owner no claim takes the job before the new lease ends; otherwise nothing changes |
| `PublishJobs.PublishStore.Fail` | internal/catalog/catalog_semantic_store.go:1452-1478 | the owner's job is claimable exactly from its retry time and the token is spent; otherwise nothing changes |
| `PublishJobs.PublishStore.Requeue` | internal/catalog/catalog_semantic_store.go:1480-1510 | the owner's job is claimable at once and the next claim gets the same token; otherwise nothing changes |
| `PublishJobs.StatementsKeepLeases` | internal/catalog/catalog_semantic_store.go:1090-1533 | every statement keeps a job running exactly when it has a lease |
| `PublishJobs.TransitionsFreeTheJob` | internal/catalog/catalog_semantic_store.go:1148-1533 | the exact instant from which each transition lets the job be claimed again, 660 seconds after a claim or renewal |
| `PublishJobs.CanceledClaimCostsNothing` | internal/catalog/catalog_semantic_store.go:1480-1510 | a canceled claim leaves the count of attempts it found |
| `PublishJobs.EnqueueIsIdempotent` | internal/catalog/catalog_semantic_store.go:1090-1146 | enqueuing again changes nothing, so a waiting job keeps its place and a running one its lease |
| `PublishJobs.EnqueueStartsOnlyFinished` | internal/catalog/catalog_semantic_store.go:1090-1146 | a new or completed job starts from nothing and is due at once; any other keeps its status, attempts and place, a running one its lease and a failed one its error |
| `PublishJobs.AttemptsAndErrors` | internal/catalog/catalog_semantic_store.go:1319-1533 | only a claim spends an attempt and only a cancellation gives one back; a failure leaves its cause, which a claim, a cancellation and a completion clear |
| `PublishJobs.GuardsHold` | internal/catalog/catalog_semantic_store.go:1368-1533 | a statement whose guard on status, token or lease fails leaves the job as it is |
| `PublishJobs.ClaimFindsIffEligible` | internal/catalog/catalog_semantic_store.go:1319-1366 | a claim finds a job exactly when the summed eligible count is positive |
| `PublishJobs.CountIsEligible` | internal/catalog/catalog_semantic_store.go:1168-1211 | the summed eligible count is the number of sources with an eligible job |
| `PublishJobs.ClaimTakesTheFirst` | internal/catalog/catalog_semantic_store.go:1319-1366 | the claimed job was eligible, no earlier source's was, and the token is the new count of attempts |
| `PublishJobs.NextEligibleIsFirst` | internal/catalog/catalog_semantic_store.go:1168-1211 | the reported time is the first at which a job is eligible, and there is none exactly when it is eligible now or has completed |
| `PublishJobs.EarliestIsFirstClaim` | internal/catalog/catalog_semantic_store.go:1168-1211 | when no claim succeeds now, claims succeed exactly from the earliest reported time on |
| `PublishProtocol.StepKeepsFenced` | internal/catalog/catalog_semantic_store.go:1148-1166 | every step but a restart keeps attempts at least every live token, and larger than superseded ones while the job is taken |
| `PublishProtocol.RequeueKeepsFenced` | internal/catalog/catalog_semantic_store.go:1480-1510 | although cancellation lowers attempts, no other publisher holds a token above the new value |
| `PublishProtocol.SupersededNeverActs` | internal/catalog/catalog_semantic_store.go:1414-1533 | over whole runs that start over no job someone remembers, renew, fail, requeue and finalize by a publisher that no longer owns the job change neither job nor published state |
| `PublishProtocol.AtMostOnePasses` | internal/catalog/catalog_semantic_store.go:1452-1533 | of all publishers at most one passes the guard of a transition |
| `PublishProtocol.StartingOverKeepsFencedIff` | internal/catalog/catalog_semantic_store.go:1090-1146 | an enqueue that starts a completed job over keeps the invariant exactly when nobody holds it or has read it at a positive count of attempts |
| `PublishProtocol.StartingOverIsSafeIff` | internal/catalog/catalog_semantic_store.go:1090-1146 | after such an enqueue no publisher without ownership ever changes job or state, in any continuation, exactly when nobody holds the job or has read it at a positive count of attempts |
| `PublishProtocol.StartingOverLosesTheFence` | internal/catalog/catalog_semantic_store.go:1277-1284 | a run in which a late activation failure of the first publisher takes the job from the second |
| `PublishProtocol.RunIsLeased` | internal/catalog/catalog_semantic_store.go:1319-1386 | in every run a job is running exactly while it has a lease |
| `PublishProtocol.OwnedJobIsBusy` | internal/catalog/catalog_semantic_store.go:1319-1386 | in every run a job that is queued, failed or gone has no owner |
| `PublishProtocol.IndexedNeverDecreases` | internal/catalog/catalog_semantic_store.go:245-345 | in every run the indexed generation is at most the asset generation and never decreases while the state row exists |
| `PublishProtocol.CommitsOnlyUnchanged` | internal/catalog/catalog_semantic_store.go:1414-1450 | a finalization that commits never inserts the state row and moves state and job together; no asset has changed since the generation was read exactly when the row existed then or no asset changed between that read and the writing of the row |
| `PublishProtocol.CheckedWasCurrent` | internal/catalog/catalog_semantic_store.go:730-748 | the check before publishing passes exactly when the asset generation is the one that was built |
| `PublishProtocol.AbortedFinalizationChangesNothing` | internal/catalog/catalog_semantic_store.go:1423-1447 | a finalization that does not commit changes neither |
| `PublishProtocol.MissingRowHidesAChange` | internal/catalog/catalog_semantic_store.go:730-748 | a run in which a change made before the state row exists goes unnoticed |
| `EmbeddingPool.Divide` | internal/catalog/catalog_semantic_store.go:894-903 | the last loop divides the slots by outcome |
| `EmbeddingPool.DividedIsOrderedPartition` | internal/catalog/catalog_semantic_store.go:894-903 | embedded and failed keep the input's order and each asset is in exactly one, with its own outcome |
| `EmbeddingPool.EmbedSequentially` | internal/catalog/catalog_semantic_store.go:816-834 | succeeds exactly when no attempt is fatal, and otherwise returns the first fatal error |
| `EmbeddingPool.SuccessIsSequential` | internal/catalog/catalog_semantic_store.go:835-903 | however workers interleave, success means every asset was handed out and completed exactly once, with the sequential result |
| `EmbeddingPool.WorkersAreDisjoint` | internal/catalog/catalog_semantic_store.go:842-871 | no two workers ever hold the same asset |
| `EmbeddingPool.StepsAreBounded` | internal/catalog/catalog_semantic_store.go:835-891 | every step brings the pool closer to its end |
| `EmbeddingPool.GivesUpIffWorkIsDone` | internal/catalog/catalog_semantic_store.go:872-880 | the sender gives up before the last asset only after a fatal error or a cancellation, and then it can |
| `EmbeddingPool.NeverBlocks` | internal/catalog/catalog_semantic_store.go:835-891 | until it has finished some worker or the sender can move |
| `SemanticResults.ChunkingIsInvisible` | internal/catalog/catalog_semantic_results.go:67-97 | for a list of one kind every chunk size resolves every candidate as if alone |
| `SemanticResults.ChunkSizeIrrelevantIff` | internal/catalog/catalog_semantic_results.go:67-97 | whatever the tables hold, the chunk size does not matter exactly for lists of one kind |
| `SemanticResults.FirstsMeaning` | internal/catalog/catalog_semantic_results.go:158-187 | the deduplicated list has every canonical asset that was hit, once |
| `SemanticResults.HitsMeaning` | internal/catalog/catalog_semantic_results.go:99-272 | the hits of a list are what its candidates show: the asset a canonical candidate names or a source candidate is linked to, where it is served, with its similarity when scores are wanted |
| `SemanticResults.FirstsAreFirst` | internal/catalog/catalog_semantic_results.go:158-187 | what is kept of an asset is its first hit |
| `SemanticResults.ResultsMeaning` | internal/catalog/catalog_semantic.go:462-493 | the results are exactly the first occurrences whose rows have an asked media type and capture time |
| `SemanticResults.Resolver.Resolve` | internal/catalog/catalog_semantic_results.go:74-272 | a chunk yields the first occurrences not seen in an earlier chunk, and the seen map grows by all it hit |
| `SemanticResults.Accumulator.constructor` | internal/catalog/catalog_semantic.go:425-449 | starts with nothing matched and nothing seen |
| `SemanticResults.Accumulator.Add` | internal/catalog/catalog_semantic.go:462-493 | with the early stop the matches are the first needed ones of the list that reading everything would give |
| `SemanticResults.Accumulator.AddChunk` | internal/catalog/catalog_semantic.go:467-491 | one chunk adds its filtered first occurrences until enough is known |
| `SemanticResults.Accumulator.Page` | internal/catalog/catalog_semantic.go:495-516 | the page, its total and HasMore are those of the complete list |
| `SemanticResults.StoppingEarly` | internal/catalog/catalog_semantic.go:343-350 | once enough is matched no later candidate can change what is needed |
| `SemanticResults.ResultPagesTile` | internal/catalog/catalog_semantic.go:495-516 | pages tile the list, HasMore says whether rows are left, totals are exact on the last page and promise one row beyond any other |
| `SemanticRanking.RankingUnique` | internal/catalog/catalog_semantic.go:629-642 | the comparator is a total order, so the ranking depends only on which candidates were found |
| `SemanticRanking.SortIsBestFirst` | internal/catalog/catalog_semantic.go:629-642 | similarity never increases along the ranking, for equal similarity the capture time never does, and ties go by source key and ID |
| `SemanticRanking.Traverse` | internal/catalog/catalog_semantic.go:354-380 | the rounds collect exactly the first 4096 candidates of every traversal, however many a round takes |
| `SemanticRanking.PromotionIsStablePartition` | internal/catalog/catalog_semantic.go:1021-1041 | promotion is a permutation with matches first and both sides in their old order |
| `SemanticRanking.Promote` | internal/catalog/catalog_semantic.go:1021-1041 | the loop and its shortcuts compute that partition |
| `SemanticRanking.PromotionPutsMatchesFirst` | internal/catalog/catalog_semantic.go:1021-1041 | of a list with the best first, promotion puts the matches first and keeps the best first on each side |
| `SemanticRanking.DiversificationMeaning` | internal/catalog/catalog_semantic_store.go:2072-2109 | diversification is a permutation of the first 80 only: pairwise distant assets, then delayed ones that are near one of them |
| `SemanticRanking.Diversify` | internal/catalog/catalog_semantic_store.go:2076-2100 | the loop and its shortcuts compute that order |
| `SemanticRanking.DiversificationKeepsOrder` | internal/catalog/catalog_semantic_store.go:2072-2109 | the kept head, the delayed head and the rest each stay in order, and the rest stays behind the head |
| `SemanticRanking.SemanticOrderMeaning` | internal/catalog/catalog_semantic.go:370-404 | before any candidate beyond the first 80 there are only metadata matches or candidates on its side of the promotion that are no worse, and the first candidate goes before all others in the same way |
| `SemanticRanking.ResolveTraversalPage` | internal/catalog/catalog_semantic.go:326-404 | the page, also when it stops after the metadata matches, is cut from one list that does not depend on the page |
| `SemanticRanking.ResultsAreChunkFree` | internal/catalog/catalog_semantic.go:326-404 | when each list is of one kind that list is filter, first occurrences, resolve of a permutation of the metadata matches and one of the snapshot |
| `SemanticRanking.SearchesAreOfOneKind` | internal/catalog/catalog_semantic.go:607-612 | metadata matches and snapshot of a search are each of one kind, because it reads the canonical corpus or the data sources' corpora and never both |
| `VerificationWindows.StepKeepsInv` | internal/catalog/local_content_verification.go:88-281 | every statement keeps the counters equal to the accepted contributions of the current occurrence |
| `VerificationWindows.WindowChangesExactlyWhen` | internal/catalog/local_content_verification.go:88-281 | a running window stays as it is until its deadline, a new root or its own slice ends it; one starts, with fresh counters, exactly for a newer occurrence with time left, none running and no root pending; status, end time, generation and pending root change with these events only |
| `VerificationWindows.EachOccurrenceOnce` | internal/catalog/local_content_verification.go:88-171 | in every run occurrences are started or skipped in increasing order, each at most once |
| `VerificationWindows.OldWindowIsFenced` | internal/catalog/local_content_verification.go:436-515 | once another occurrence was admitted, a slice of the old window changes neither counters nor status |
| `VerificationWindows.OutcomesBalance` | internal/catalog/local_content_verification.go:317-367 | in every run verified, changed, failed and processed files without an outcome together are the processed files plus the slices that found the root untrusted |
| `VerificationWindows.OutcomesWithinOneIff` | internal/catalog/local_content_verification.go:317-367 | in every run the outcomes exceed the processed files by at most one exactly when the slices that found the root untrusted exceed the files without an outcome by at most one |
| `VerificationWindows.OutcomesWithinOne` | internal/catalog/local_content_verification.go:322-337 | when such a slice also closes its window, which is the guard of the failing run, the excess is at most one, and none while the window runs |
| `VerificationWindows.CrashesCountTwice` | internal/catalog/local_content_verification.go:326-337 | a slice that stops between recording and closing lets the next one count again |
| `VerificationSlice.Verifier.NextCandidate` | internal/catalog/local_content_verification.go:646-697 | finds the due file that was never tried or is longest untried, then the lowest ID, or that there is none |
| `VerificationSlice.NextIsFirstDue` | internal/catalog/local_content_verification.go:646-697 | the next candidate is the first due file: active with a recorded hash, neither verified nor tried since the start, and not failed within half an hour |
| `VerificationSlice.Verifier.Check` | internal/catalog/local_content_verification.go:518-643 | the statements of a whole check add up to its effect on the one location, in every branch |
| `VerificationSlice.Verifier.VerifyNext` | internal/catalog/local_content_verification.go:518-643 | checks the first candidate in order, or reports that there is none |
| `VerificationSlice.Verifier.RunSlice` | internal/catalog/local_content_verification.go:286-385 | a slice of a closed or expired window touches no file; otherwise it settles one file, adds exactly its report and closes the window exactly when it is over |
| `VerificationSlice.CountersAreTrue` | internal/catalog/local_content_verification.go:286-643 | in every slice the changed counter grows by exactly the identities lost, no identity is gained or altered, and the verified counter grows exactly when the next file has the recorded hash |
| `VerificationSlice.VerifiedFileIsDone` | internal/catalog/local_content_verification.go:777-820 | a verified file keeps its identity, loses its error, and is not due again in this window |
| `VerificationSlice.FailedFileRests` | internal/catalog/local_content_verification.go:822-847 | a failed file keeps its identity, says why it failed, and is due again in a later window half an hour later and not before |
| `VerificationSlice.ChangedFileIsForgotten` | internal/catalog/local_content_verification.go:518-643 | a changed or missing file is never due again before it is registered anew, and nothing of its identity is left |
| `VerificationSlice.CountersCountTheProbe` | internal/catalog/local_content_verification.go:339-353 | a slice adds one failure exactly for an unreadable file or an untrusted root, one processed file unless the root is untrusted or the check interrupted, and the bytes read; without a due file it adds nothing |
| `VerificationSlice.RestoreUndoesAttempt` | internal/catalog/local_content_verification.go:699-775 | restoring an attempt leaves the location as it was before it was recorded |
| `VerificationSlice.StaleCandidatesAreRefused` | internal/catalog/local_content_verification.go:699-775 | an attempt is recorded exactly while hash, file attributes and root are those the candidate was read from, and only this attempt can be taken back |
| `VerificationSlice.ExaminedFileWaitsNoMore` | internal/catalog/local_content_verification.go:518-643 | every check that reports a file settles it for the window, and any other leaves it as it was |
| `VerificationSlice.SliceShrinksTheWindow` | internal/catalog/local_content_verification.go:286-385 | every slice that reports a file removes it from the files waiting in the window and no slice adds one; any other leaves all locations as they were |
| `VerificationSlice.SliceEndsOrShrinks` | internal/catalog/local_content_verification.go:286-385 | a slice that is not interrupted closes the window or leaves it open with fewer files waiting |
| `VerificationSlice.RunWindow` | internal/runtime/local_scan.go:570-640 | whatever the files show, running slices closes a window with n waiting files after at most n + 1 of them |
| `VerificationSlice.CompletionLeavesNothing` | internal/catalog/local_content_verification.go:365-384 | a window completed in time leaves only files that rest after a failure |

## Left out

- SQLite itself, transactions as such, file hashing, file descriptors, helper processes, network calls, embedding models, the nearest-neighbour graph and file formats: hashes are functions (injective where the code relies on it), a traversal is a fixed stream of candidates, checks of a file are parameters.
- TEXT keys and identifiers are integer codes in their SQLite order, stored instants are integers in their order, a day is a fixed length of time; `formatCatalogTime`, `semanticRetryDelay` and the parse errors of stored times are not part of this model.
- 64-bit overflow of counters, offsets and page arithmetic: integers are unbounded, and the cap of the wanted count at the largest integer is left out.
- Errors of SQL statements and connections: every statement succeeds; the errors the code itself decides on are modelled.
- Scope keys are the configured source keys themselves instead of their joined text, which determines them because validated keys contain no separator.
- The exact-total cache of `catalogExactTotal`, page boundaries for display, status snapshots, diagnostics and log lines: display only.
- The equality of the mixed-source readiness clause with the projection: the two select sources differently, so the general page is compared over the projection's own view, and over the general query only for Immich-only catalogs.
- A path that stops being a regular file while it is checked: the slice then ends with an error before any further statement.
- Filename and metadata text queries, metadata candidate loading and its time budgets: the keys and candidates they return are inputs.
- Several vector spaces of one model sharing one state row: the publish protocol is modelled for one profile of one source.
- `internal/adminapi`, `cmd`, the clock sampling of the HTTP Date field and the mirror cursor: plumbing around the modelled code.
- ImmichPager.CompletedRunLosesNothing: assumes a server that answers each request from what matches at that moment, newest first, with an inclusive upper bound, as internal/catalog/immich_passthrough.go:170-171 describes it; assets without a capture time are outside that promise because the pager rejects their page.
- ImmichPager.OverfullIsDense: assumes besides that a continued page is full and repeats nothing, as do `SparseRunsSucceed` and `MirrorAll`.
- ExternalConfigured.LossEqualsFull: the path checksum is injective, as in all results about accepted mappings; `ExternalPrecedence.LossEqualsFullIff` and `ExternalGain.GainEqualsFullIff` need neither that nor accepted mappings. White space is blank, tab, carriage return and line feed.
- ExternalRuns.RunReconcilesIff: assumes that no two active files of one root differ only in surrounding white space and that registered files have a content hash; the single steps without the first are in `ExternalPrecedence.LossEqualsFullIff` and `ExternalGain.GainEqualsFullIff`. Which Local transactions report which lost paths is not part of this model, nor is the detail request that can replace an asset's checksum after its path was mapped.
- GallerySearch.SearchProjection: requires a positive page size, which internal/catalog/service.go:2405-2415 enforces.
- GalleryTimeline.TimelineStore.Commit: a caller that reports no canonical change must not have changed the general rows; which callers report one is not part of this model.
- PublishProtocol.SupersededNeverActs: holds for runs in which no completed job is started over while someone remembers its token; `StartingOverIsSafeIff` gives the exact condition and `StartingOverLosesTheFence` a failing run.
- SemanticRanking.ResolveTraversalPage: the pages of one search share one result of the metadata promotion, whether it timed out included.
- VerificationSlice.SliceShrinksTheWindow: assumes a clock that does not run backwards since the window started and no other writer during the slice, as does `RunWindow`; interleavings are modelled for the window row only.
- EmbeddingPool.SuccessIsSequential: embedding an asset has one outcome unless the batch is stopped; cancellation is checked once all workers have returned.
