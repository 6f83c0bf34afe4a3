# Aidoku manga migration and MyAnimeList status form, in Dafny

This project models two pieces of Aidoku, a manga reader.

The first is the manga migration screen (`MigrateMangaView`). It replaces a
set of library manga with equivalent manga from other sources. The model
covers the screen's state, withdrawing a manga from the set, the search
phase and the migration phase. In the search phase each manga's title is
looked up in the chosen sources in order, and the first source returning a
result wins. In the migration phase each matched manga goes through three
store rewrites: the library record, the chapters and reading history, and
the tracker links.

The second is the form body that the MyAnimeList tracker sends when it
updates a manga's list status (`MyAnimeListMangaStatus.percentEncoded`).

Files:

- `wrappers.dfy`: the `Option` type.
- `text.dfy`: joining and splitting on a separator, and rendering and parsing
  integers and booleans the way Swift string interpolation prints them.
- `myanimelist_models.dfy`: the status record, its coding keys, the form
  body, and a parser for the body used to state the round trip.
- `migration_search.dfy`: manga, chapters, sources, and the search
  providers as a value of total functions. Also the first-match rule.
- `migration_store.dfy`: the persistent store as values (library records,
  chapter lists, history, tracker links), the three migration steps as
  functions, and a `Store` class that applies them in place.
- `migrate_manga_view.dfy`: the screen as a class whose methods update its
  tables: `Remove`, `MarkRunningByIndex`, `MarkRunning`, `SearchManga`,
  `SearchAll`, `PerformSearch`, `MigrateManga` and `PerformMigration`.

Each manga's key in the screen's tables (its `hashValue`) is the class's
constant function `key`. The network is the `Providers` value. The store is
a `Store` object passed to the migration methods.

One would expect an existing destination record to win over renaming the
old record. The library step compares only `newManga.id` with
`oldManga.id` (line 211 of `MigrateMangaView.swift`), so when both manga
have the same id in different sources the old record is renamed next to the
existing one (see Findings). The library step of the store model
(`MigrationStore.MigrateCatalog`) uses the corrected comparison of
(source id, id); `MigrationStore.MigrateCatalogAsWritten` is the code as
written, and `MigrationStore.CatalogVersionsAgree` shows the two differ
only in that case.

Reading progress is not carried forward monotonically. Only new chapters
numbered at or below the old maximum are marked. If the new list lacks a
chapter at the old maximum, the largest chapter read after migration is
lower. The model proves what the code guarantees: every new chapter at or
below the old maximum is completed (`MigrationStore.ProgressCarriedForward`).

The "set running" loop of the search (lines 156-157) is modelled as
written and is the one the search runs; the corrected loop
(`MigrateMangaView.MigrateMangaView.MarkRunning`) stands beside it.

## Model

| member | source | states |
|---|---|---|
| MyAnimeListModels.RawValue | Shared/Tracking/Trackers/myanimelist/MyAnimeListModels.swift:36-46 | every wire name is a non-empty snake_case name of lower-case letters and underscores |
| MyAnimeListModels.FormBody | Shared/Tracking/Trackers/myanimelist/MyAnimeListModels.swift:49-57 | with no sent field the body is empty; with one it is exactly that field's `name=value` |
| MyAnimeListModels.RawValueInjective | Shared/Tracking/Trackers/myanimelist/MyAnimeListModels.swift:36-46 | two coding keys have the same wire name exactly when they are the same key |
| MyAnimeListModels.KeyNamedRawValue | Shared/Tracking/Trackers/myanimelist/MyAnimeListModels.swift:36-46 | looking up a key's wire name gives back that key |
| MyAnimeListModels.ParamsForSpec | Shared/Tracking/Trackers/myanimelist/MyAnimeListModels.swift:49-55 | the parameters for a list of keys are exactly the set fields among those keys, each with its rendered value, in list order |
| MyAnimeListModels.FormParams | Shared/Tracking/Trackers/myanimelist/MyAnimeListModels.swift:49-55 | each parameter is one of the six sent fields with its rendered value; every set sent field appears; the order is the fixed field order; `updated_at`, `status` and `comments` are never sent |
| MyAnimeListModels.FormParamsCount | Shared/Tracking/Trackers/myanimelist/MyAnimeListModels.swift:49-55 | there is one parameter per set sent field |
| MyAnimeListModels.PercentEncoded | Shared/Tracking/Trackers/myanimelist/MyAnimeListModels.swift:48-59 | the six conditional appends, joined with `&`, give the form body of the status |
| MyAnimeListModels.FormTexts | Shared/Tracking/Trackers/myanimelist/MyAnimeListModels.swift:50-55 | the `key=value` texts are, in order, those of the set fields among `is_rereading`, `num_volumes_read`, `num_chapters_read`, `start_date`, `finish_date`, `score` |
| MyAnimeListModels.SeparatorCount | Shared/Tracking/Trackers/myanimelist/MyAnimeListModels.swift:56-57 | when no date contains `&`, the body has one `&` fewer than there are set sent fields (none when no field is set) |
| MyAnimeListModels.EmptyBody | Shared/Tracking/Trackers/myanimelist/MyAnimeListModels.swift:49-57 | the body is empty exactly when no sent field is set |
| MyAnimeListModels.UnsentFieldsIgnored | Shared/Tracking/Trackers/myanimelist/MyAnimeListModels.swift:48-59 | changing `updatedAt`, `status` or `comments` never changes the body |
| MyAnimeListModels.ParseFormBody | Shared/Tracking/Trackers/myanimelist/MyAnimeListModels.swift:56-57 | when no date contains `&` or `=`, splitting the body gives back each parameter's wire name and value, in order |
| MyAnimeListModels.FormRoundTrip | Shared/Tracking/Trackers/myanimelist/MyAnimeListModels.swift:48-59 | when no date contains `&` or `=`, decoding the body restores the six sent fields and leaves the other three unset |
| Text.JoinCount | Shared/Tracking/Trackers/myanimelist/MyAnimeListModels.swift:56-57 | joining parts free of the separator puts exactly one separator between consecutive parts |
| Text.SplitJoin | Shared/Tracking/Trackers/myanimelist/MyAnimeListModels.swift:56-57 | splitting a join of separator-free parts gives back the parts |
| Text.IntToString | Shared/Tracking/Trackers/myanimelist/MyAnimeListModels.swift:51-55 | an interpolated integer is non-empty, starts with `-` exactly when negative, and is otherwise all decimal digits with no leading zero (`0` alone for zero) |
| Text.BoolToString | Shared/Tracking/Trackers/myanimelist/MyAnimeListModels.swift:50 | an interpolated boolean is `true` exactly when it is true and `false` exactly when it is false |
| Text.ParseIntToString | Shared/Tracking/Trackers/myanimelist/MyAnimeListModels.swift:51-55 | an interpolated integer reads back as the same integer |
| Text.ParseBoolToString | Shared/Tracking/Trackers/myanimelist/MyAnimeListModels.swift:50 | an interpolated boolean reads back as the same boolean |
| Text.IntToStringPlain | Shared/Tracking/Trackers/myanimelist/MyAnimeListModels.swift:51-55 | an interpolated integer contains neither `&` nor `=` |
| MigrationSearch.Hit | iOS/Scenes/Migration/MigrateMangaView.swift:164-169 | a source gives nothing for a manga without a title or for an unknown source id; a hit is the first of a non-empty search result; conversely a titled manga on a resolving source whose search returns a non-empty list gets that list's first element |
| MigrationSearch.Enrich | iOS/Scenes/Migration/MigrateMangaView.swift:171-176 | a hit always counts as found; a successful detail fetch gives the fetched details and a failed one keeps the bare hit; a successful chapter fetch gives the fetched list and a failed one gives no chapters |
| MigrationSearch.Match | iOS/Scenes/Migration/MigrateMangaView.swift:163-183 | a match is found only when some chosen source gives a hit |
| MigrationSearch.FirstSourceWins | iOS/Scenes/Migration/MigrateMangaView.swift:163-180 | when source k is the first with a search result, the match is source k's first result, enriched with its details and chapters |
| MigrationSearch.NotFoundIffNoHit | iOS/Scenes/Migration/MigrateMangaView.swift:163-183 | the search fails exactly when no source gives a result for the title |
| MigrationSearch.FirstHitExists | iOS/Scenes/Migration/MigrateMangaView.swift:163-181 | if any source gives a result, there is a first one |
| MigrationSearch.LaterSourcesNotConsulted | iOS/Scenes/Migration/MigrateMangaView.swift:169-179 | sources after the first one with a result do not affect the match |
| MigrationSearch.NoTitleNoMatch | iOS/Scenes/Migration/MigrateMangaView.swift:164-167 | a manga without a title never matches |
| MigrationSearch.EmptyThenHit | iOS/Scenes/Migration/MigrateMangaView.swift:168-169 | an empty result list counts as no result, and the next source is tried |
| MigrationStore.FindManga | iOS/Scenes/Migration/MigrateMangaView.swift:205-209 | the lookup returns the first record with the identity, or none when no record has it |
| MigrationStore.RemoveManga | iOS/Scenes/Migration/MigrateMangaView.swift:218 | exactly the records with the identity are removed; a library without duplicates stays without |
| MigrationStore.MigrateCatalog | iOS/Scenes/Migration/MigrateMangaView.swift:205-227 | the corrected library step never adds a record, and every record afterwards was there before or carries the new manga |
| MigrationStore.MigrateCatalogAsWritten | iOS/Scenes/Migration/MigrateMangaView.swift:205-227 | the library step as written (ids compared without source ids) never adds a record, and every record afterwards was there before or carries the new manga |
| MigrationStore.AsWrittenKeepsUniqueOtherwise | iOS/Scenes/Migration/MigrateMangaView.swift:211-227 | as written, the library stays free of duplicates whenever the ids differ or the source ids agree |
| MigrationStore.CatalogVersionsAgree | iOS/Scenes/Migration/MigrateMangaView.swift:211-226 | the code as written and the corrected rule agree unless the ids are equal and the source ids differ |
| MigrationStore.AsWrittenDuplicatesRecord | iOS/Scenes/Migration/MigrateMangaView.swift:211-227 | as written, migrating ("a", "1") to ("b", "1") with both in the library leaves two records for ("b", "1") |
| MigrationStore.CatalogKeepsUnique | iOS/Scenes/Migration/MigrateMangaView.swift:205-227 | the corrected library step keeps at most one record per identity |
| MigrationStore.CatalogOutcome | iOS/Scenes/Migration/MigrateMangaView.swift:205-227 | afterwards one record has the destination identity and data; it is the destination's own record when it had one, else the old one renamed; the old record is gone; all other records stay; no record appears that was not there before except ones carrying the new manga |
| MigrationStore.MaxChapterRead | iOS/Scenes/Migration/MigrateMangaView.swift:240-243 | the result is the largest chapter number among the old manga's numbered history entries, or none when there is none |
| MigrationStore.ChaptersToComplete | iOS/Scenes/Migration/MigrateMangaView.swift:257 | a new chapter is selected exactly when its number, or the largest float when it has none, is at most the maximum |
| MigrationStore.MarkedExactly | iOS/Scenes/Migration/MigrateMangaView.swift:255-259 | below the largest float, exactly the numbered chapters at or below the maximum are marked |
| MigrationStore.MarkCompleted | iOS/Scenes/Migration/MigrateMangaView.swift:256-259 | marking one chapter adds at most one entry and drops none |
| MigrationStore.SetCompleted | iOS/Scenes/Migration/MigrateMangaView.swift:256-259 | marking a list of chapters adds at most one entry per chapter and drops none |
| MigrationStore.MigrateChapters | iOS/Scenes/Migration/MigrateMangaView.swift:245-253 | the new chapters are stored under the destination, the old manga's list is gone when the identities differ, and every other manga's list is unchanged |
| MigrationStore.MigrateHistory | iOS/Scenes/Migration/MigrateMangaView.swift:235-259 | every entry afterwards is an old entry of another manga or a completion mark for a new chapter |
| MigrationStore.RemoveHistory | iOS/Scenes/Migration/MigrateMangaView.swift:246 | exactly the old manga's entries are removed |
| MigrationStore.MarkCompletedSpec | iOS/Scenes/Migration/MigrateMangaView.swift:256-259 | marking a chapter completes it, keeps other entries, and adds no entry for other chapters |
| MigrationStore.SetCompletedSpec | iOS/Scenes/Migration/MigrateMangaView.swift:256-259 | every chapter handed over ends up completed; completed ones stay completed; every resulting entry was there before or marks a handed-over chapter |
| MigrationStore.HistoryOutcome | iOS/Scenes/Migration/MigrateMangaView.swift:235-259 | every new chapter at or below the old maximum is completed; with no numbered old entry the old entries are only removed; other manga's entries stay unless they are for a new chapter; the old manga's only entries left are completion marks for new chapters; when there was a maximum, every entry afterwards was there before or marks a new chapter at or below it |
| MigrationStore.ProgressCarriedForward | iOS/Scenes/Migration/MigrateMangaView.swift:240-259 | a new numbered chapter at or below any numbered old entry is completed after migration |
| MigrationStore.MarkUpToTwelveAndAHalf | iOS/Scenes/Migration/MigrateMangaView.swift:255-259 | with old progress 12.5, new chapters 10, 12, 13, 15: chapters 10 and 12 are marked |
| MigrationStore.RebindTracks | iOS/Scenes/Migration/MigrateMangaView.swift:273-285 | the loop never adds or drops a link |
| MigrationStore.MigrateTracks | iOS/Scenes/Migration/MigrateMangaView.swift:268-285 | the tracker step keeps the number of links, and each link is unchanged or is an old manga's link with a tracker id now bound to the destination |
| MigrationStore.RebindOnlyMoves | iOS/Scenes/Migration/MigrateMangaView.swift:273-285 | each link stays the same or is a link of the old manga with a tracker id, now bound to the destination; links not yet reached are untouched |
| MigrationStore.RebindKeepsUnique | iOS/Scenes/Migration/MigrateMangaView.swift:273-285 | the loop keeps at most one link per tracker and identity |
| MigrationStore.RebindCovers | iOS/Scenes/Migration/MigrateMangaView.swift:273-285 | after the loop passes an old link with a tracker id, the destination has a link for that tracker |
| MigrationStore.ExistingDestinationLinkBlocks | iOS/Scenes/Migration/MigrateMangaView.swift:274-282 | if the destination already has a link for a tracker, no link for that tracker is rebound, and the destination keeps its link |
| MigrationStore.Migrate | iOS/Scenes/Migration/MigrateMangaView.swift:203-288 | after one manga's migration the new chapters are stored under the destination, no library record is added and no tracker link is added or dropped |
| MigrationStore.MigrateKeepsConsistent | iOS/Scenes/Migration/MigrateMangaView.swift:203-288 | one manga's migration keeps the library and the tracker links free of duplicates |
| MigrationStore.Store.MigrateMangaRecord | iOS/Scenes/Migration/MigrateMangaView.swift:204-229 | the library becomes the library step applied to the old library |
| MigrationStore.Store.MigrateMangaHistory | iOS/Scenes/Migration/MigrateMangaView.swift:234-262 | the chapter lists and history become the history step applied to the old ones |
| MigrationStore.Store.MigrateMangaTracks | iOS/Scenes/Migration/MigrateMangaView.swift:267-287 | the in-place loop leaves the links equal to the tracker step applied to the old links |
| MigrateMangaView.RemoveAll | iOS/Scenes/Migration/MigrateMangaView.swift:143 | the result holds every element except `x`, each as often as before |
| MigrateMangaView.RemoveAllAppend | iOS/Scenes/Migration/MigrateMangaView.swift:143 | removal works piece by piece, so the kept elements keep their order |
| MigrateMangaView.SourceTable | iOS/Scenes/Migration/MigrateMangaView.swift:32-35 | the table has exactly the keys of the listed manga, and each key holds the source of the last listed manga with that key |
| MigrateMangaView.MigrateMangaView.constructor | iOS/Scenes/Migration/MigrateMangaView.swift:30-37 | the loop builds the source table; every other table starts empty and the screen idle |
| MigrateMangaView.MigrateMangaView.Remove | iOS/Scenes/Migration/MigrateMangaView.swift:142-148 | the manga leaves the list and its key leaves all four tables; afterwards it has no match and migrating it changes nothing |
| MigrateMangaView.MarkIndices | iOS/Scenes/Migration/MigrateMangaView.swift:156-158 | marking keys i up to n running sets exactly those keys to running and leaves every other row as it was |
| MigrateMangaView.RunningByIndex | iOS/Scenes/Migration/MigrateMangaView.swift:156-158 | the loop as written sets keys 0 up to the table's size to running and leaves every other row as it was |
| MigrateMangaView.RunningByIndexMissesItems | iOS/Scenes/Migration/MigrateMangaView.swift:156-158 | the loop as written leaves any key outside 0 up to the table's size unmarked; on an empty table it marks nothing |
| MigrateMangaView.MigrateMangaView.MarkRunningByIndex | iOS/Scenes/Migration/MigrateMangaView.swift:156-158 | the loop as written marks keys 0 up to the table's size running |
| MigrateMangaView.RunningForItems | iOS/Scenes/Migration/MigrateMangaView.swift:155-158 | every listed manga's key is marked running; other rows are kept |
| MigrateMangaView.MigrateMangaView.MarkRunning | iOS/Scenes/Migration/MigrateMangaView.swift:155-158 | the loop marks every listed manga's row running |
| MigrateMangaView.MigrateMangaView.SearchManga | iOS/Scenes/Migration/MigrateMangaView.swift:161-184 | the loop over the chosen sources records the first match with its chapters and `done`, or records `failed` |
| MigrateMangaView.SearchStep | iOS/Scenes/Migration/MigrateMangaView.swift:160-185 | recording one manga's outcome keeps earlier rows finished, and keeps their outcomes when keys do not collide |
| MigrateMangaView.SearchCovers | iOS/Scenes/Migration/MigrateMangaView.swift:160-185 | facts recorded position by position hold for every listed manga |
| MigrateMangaView.MigrateMangaView.SearchAll | iOS/Scenes/Migration/MigrateMangaView.swift:159-186 | every listed manga's row ends `done` or `failed`; with distinct keys each row holds its own manga's match; the state, matched-manga and chapter entries of keys no listed manga has are unchanged, and no state row appears at such a key; no key is dropped from any of the three tables; every new or changed matched-manga or chapter entry belongs to a listed manga whose search found a match |
| MigrateMangaView.MigrateMangaView.PerformSearch | iOS/Scenes/Migration/MigrateMangaView.swift:151-190 | afterwards the screen is done, every listed manga's row is `done` or `failed`, and with distinct keys each row holds its own match; with the "set running" loop as written, rows of keys 0 up to the table's former size that no listed manga has are left running, and other unlisted rows keep their state, with no row appearing at an unlisted key outside that range; matched-manga and chapter entries of unlisted keys are unchanged; no key is dropped from any of the three tables; every new or changed entry belongs to a listed manga whose search found a match |
| MigrateMangaView.Matches.Pending | iOS/Scenes/Migration/MigrateMangaView.swift:196-200 | a manga has a pending migration exactly when its matched-manga entry exists and is non-nil and its chapter entry exists, and then the pending pair is those two entries |
| MigrateMangaView.Matches.Migrations | iOS/Scenes/Migration/MigrateMangaView.swift:193-300 | the reported pairs are at most one per listed manga; each is the (old, new) pair of a listed manga with a pending migration, and every listed manga with a pending migration is reported |
| MigrateMangaView.Matches.MigrateAll | iOS/Scenes/Migration/MigrateMangaView.swift:193-294 | migrating the listed manga never adds library records nor changes the number of tracker links, and with no pending migration the store is unchanged |
| MigrateMangaView.MigrateMangaView.MigrateManga | iOS/Scenes/Migration/MigrateMangaView.swift:195-294 | without a recorded manga and chapter list nothing changes and the result is none; otherwise the three steps run and the result is (old, new) |
| MigrateMangaView.MigrateMangaView.PerformMigration | iOS/Scenes/Migration/MigrateMangaView.swift:192-301 | the reported pairs are the matched manga in list order, and the store is every matched manga migrated in turn |
| MigrateMangaView.MigrateAllKeepsConsistent | iOS/Scenes/Migration/MigrateMangaView.swift:192-296 | migrating any list of manga keeps the library and tracker links free of duplicates |

## Left out

- The SwiftUI view body, the source picker, the confirmation alert and `dismiss` (lines 39-140 and 306-317) are user interface.
- The task groups of `performSearch` and `performMigration` are modelled as a loop in list order. Interleavings of concurrent tasks are not modelled. Two manga whose searches write the same key are covered only by "every row is finished".
- The three migration tasks of one manga run in turn in the model. Each `performBackgroundTask` context, `context.save()` and discarded save errors are not modelled. The store is one value that each step updates.
- Network calls (`fetchSearchManga`, `getMangaDetails`, `getChapterList`) and `SourceManager.source(for:)` are the functions of the `Providers` value; their errors become `None`.
- `withAnimation` and the `NotificationCenter` posts (lines 299, 302-303) have no effect on modelled state. The per-pair post is covered by the pairs `PerformMigration` returns.
- `hashValue` is the class constant `key`; its real values are not modelled.
- `CoreDataManager` bodies are not part of this model. `getManga`, `removeManga`, `getHistoryForManga`, `removeChapters`, `removeHistory`, `setChapters`, `getTracks` and `hasTrack` follow their names and arguments. `setCompleted` marks the chapter's existing entries or adds one. Fetches return rows in store order and see changes not yet saved.
- `MigrationStore.Load`: a record's own attributes (library entry, categories) are one opaque value that loading keeps.
- Chapter numbers are reals. Float and Decimal rounding is not modelled, and neither is a Decimal above the largest float turning into infinity.
- `Data(using: .utf8)` in `percentEncoded` is not modelled: the body is a string and the conversion never fails for one. The Codable encoding and decoding through `CodingKeys` is represented only by the keys' wire names.
- Integers are unbounded; Swift's 64-bit `Int` overflow is not modelled.
- MyAnimeListModels.FormRoundTrip: stated only for dates without `&` or `=`, because the code does not escape them and such a date changes the form's shape.
- MigrationStore.Store.MigrateMangaRecord: follows the corrected comparison of (source id, id), not the id-only test of line 211, so it never duplicates a record where the code does (see Findings).
- MigrationStore.CatalogOutcome: stated for the corrected comparison; for the code as written see `MigrationStore.AsWrittenDuplicatesRecord`.
- MigrationStore.CatalogKeepsUnique: stated for the corrected comparison; as written it holds only when the ids differ or the source ids agree (`MigrationStore.AsWrittenKeepsUniqueOtherwise`).
- MigrationStore.Migrate: uses the corrected library step, so every migration built on it follows the corrected comparison.
- MigrationStore.MigrateKeepsConsistent: its library half holds for the corrected comparison only; as written a migration between equal ids of different sources can duplicate a record.
- MigrateMangaView.MigrateAllKeepsConsistent: inherits the corrected comparison from `MigrationStore.Migrate`, with the same gap for the code as written.
- MigrateMangaView.Matches.MigrateAll: applies `MigrationStore.Migrate` to each manga, so its library step follows the corrected comparison; the stated bounds also hold for the code as written.
- MigrateMangaView.MigrateMangaView.MigrateManga: its store outcome is `MigrationStore.Migrate`, so its library step follows the corrected (source id, id) comparison, not the id-only comparison of line 211.
- MigrateMangaView.MigrateMangaView.PerformMigration: applies `MigrationStore.Migrate`, so its store outcome follows the corrected comparison.
- MigrateMangaView.MigrateMangaView.MarkRunning: the corrected "set running" loop; the search runs the loop as written (`MarkRunningByIndex`) instead.
- MigrateMangaView.MigrateMangaView.PerformSearch: each row holds its own manga's match only when no two listed manga share a key. With a key collision the model only promises that the row is finished, because the row then depends on task order.

## Findings

| source | as written | input that shows it | evidently intended | confidence | as-written member | corrected member |
|---|---|---|---|---|---|---|
| iOS/Scenes/Migration/MigrateMangaView.swift:211 | the existing destination record is used only when `newManga.id != oldManga.id`, which compares ids and not source ids | old ("a", "1") and new ("b", "1"), both in the library: the old record is renamed to ("b", "1") beside the existing one | use the existing destination record whenever its (source id, id) differs from the old manga's | high; not executed | MigrationStore.AsWrittenDuplicatesRecord | MigrationStore.CatalogKeepsUnique |
| iOS/Scenes/Migration/MigrateMangaView.swift:156-157 | `states[i] = .running` for `i` in `0..<states.count` marks small integer keys, not the manga's hash keys | a fresh search: `states` is empty, so no row is marked running; later, keys 0, 1, ... get rows no manga has | mark each listed manga's row, `states[manga.hashValue] = .running` | high; not executed | MigrateMangaView.RunningByIndexMissesItems | MigrateMangaView.RunningForItems |
