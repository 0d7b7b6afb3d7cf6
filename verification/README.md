# Verification of the lint service's stateful cores

Spectify lints OpenAPI documents: it stores documents, runs rulesets over them in a pool of workers, keeps the results,
and reports them to another service. This project models the five parts whose correctness depends on several
structures staying in step over every run, and proves that they do.

- **Lint results** (`CompositeKey`, `LintLog`, `LintStore`, `JobQueries`, `JobStats`). One map and five hand-kept
  indexes with expiry and lazy removal. A ghost log of everything ever asked gives the reference answer: the one-slot
  composite index answers like a reverse scan of that log for a colon-free triple, exactly when the latest store of
  the triple outlives the others, which one fixed time to live guarantees. Listings and pages are filter, stable
  sort and slice.
- **Documents** (`Documents`, `Postings`, `SearchIndex`, `UploadHistory`, `VersionLinks`, `Datastore`,
  `DocumentCache`, `Coordinator`, `StoreRace`). The incremental search index equals a rebuild, checksums stay distinct,
  the quota holds, every live document is read back as it was stored, upload counts tell the truth, the version lineage
  runs back in time, and the cache in front is invisible although it shares the metadata objects that updates change in
  place.
- **Worker pool** (`WorkerPool`). One method for each synchronous segment between two awaits: the lists by ruleset
  partition the workers, every waiter is settled once and in order, and the check-then-act bound on the number of
  workers is proved and reached.
- **Report delivery** (`Notifications`, `Shrinker`, `PendingStorage`, `ReportClient`). Every file operation may fail,
  and the disk is recorded after each of them: a stored notification is at every point pending, dead-lettered or
  acknowledged. Retry runs add up and drain. Shrinking keeps prefixes, and exactly when its result fits the limit
  is said for every payload, limit and serialiser.
- **Jobs** (`JobExecution`, `Admission`). Progress is conserved, results are the first issues in order, and the counter
  of active jobs is bounded under interleaved submissions.

`Collections` and `StableSort` model the JavaScript `Map`, array methods and stable sort the parts share.

Classes keep the original's fields and change them in place; ghost fields hold what only the proof needs. Reads of the
clock, fresh ids, hashing, parsing, collation, serialised length, server replies and the fate of file operations are
parameters, so what is proved holds for all of them. `dafny verify dfyconfig.toml` checks everything.

Some promises fail in the original; there the model keeps the code, and proves exactly when the promise holds and that
some run breaks it:

- one slot per composite key: `CompositeKey.KeyIsUnique` and `LintLog.ColonFreeExactly` for colons in ids,
  `LintLog.OneSlotRefinesScan` and `LintStore.ShortenedTtl` for a time to live that changes;
- indexes in step: `LintStore.AddCoherent` and `LintStore.StoredAgain` for an id stored again;
- version lineage: `VersionLinks.LinkKeepsLineage`, `VersionLinks.OlderContentReversesHistory` and
  `Datastore.UpdateWithOlder` for known content;
- cache size: `DocumentCache.DocumentCache.Set` and `DocumentCache.TwoInOneTick` for writes within one clock tick;
- scale-up: `WorkerPool.ScaleUpTarget` and `WorkerPool.ScaleUpMisses` for an `@` in a ruleset's name;
- payload limit: `Shrinker.FitsExactly` and `Shrinker.OversizedIssue` for issues too large by themselves,
  `Shrinker.FitsOrLastResortExactly`, `Shrinker.AsCalled` and `ReportClient.NamesakesOverLimit` for namesakes;
- stored locally: `ReportClient.KeptIfWritten` and `ReportClient.LostThoughStored` for a write that fails;
- moved: `PendingStorage.MovedInName` and `PendingStorage.MoveIntoMissingDirectory` for a missing directory;
- more pages: `JobQueries.HasMoreExactly` and `JobQueries.LastPageHasMore` for a negative offset;
- quota and distinct contents: `StoreRace.StoresBounded` and `StoreRace.ReachBounds` for overlapping stores;
- reported cuts: `JobExecution.TruncationExact` and `JobExecution.CleanJobReportsCut` for empty results at the limit.

## Model

| member | source | states |
|---|---|---|
| `CompositeKey.ParseMake` | packages/orchestrator/src/storage/storage-adapter.ts:208-235 | Parsing a made key gives the three parts back exactly when none of them contains a colon |
| `CompositeKey.MakeParse` | packages/orchestrator/src/storage/storage-adapter.ts:208-235 | Making a key from what was parsed gives the same key, for every key that parses |
| `CompositeKey.MakeInjective` | packages/orchestrator/src/storage/storage-adapter.ts:208-214 | A triple that shares its key with a colon-free triple is that triple, whatever colons it might have held |
| `CompositeKey.KeyIsUnique` | packages/orchestrator/src/storage/storage-adapter.ts:208-214 | A triple has its key to itself if and only if none of its parts contains a colon |
| `CompositeKey.Collision` | packages/orchestrator/src/storage/storage-adapter.ts:208-214 | Every triple with a colon in a part shares its key with a different triple |
| `CompositeKey.MakeCollides` | packages/orchestrator/src/storage/storage-adapter.ts:208-235 | With a colon in a part, two different triples can share a key that cannot be parsed |
| `LintLog.ScanFindsLatestOffer` | packages/orchestrator/src/storage/memory-storage.ts:196-209 | The reference answer: a reverse scan of the whole log finds the latest store of the triple that is neither withdrawn nor expired, and nothing only if there is none |
| `LintLog.OneSlotAgrees` | packages/orchestrator/src/storage/memory-storage.ts:121-209 | For a colon-free triple, whatever else is in the log, the one-slot index answers like the reverse scan if no job still on offer outlives the latest of the triple |
| `LintLog.OneSlotRefinesScan` | packages/orchestrator/src/storage/memory-storage.ts:121-251 | For a colon-free triple the two answer alike at every moment if and only if the latest store outlives all others still on offer |
| `LintLog.ColonFreeExactly` | packages/orchestrator/src/storage/memory-storage.ts:121-209 | With one time to live, they answer alike in every log at every moment if and only if the triple is colon-free |
| `LintLog.OtherJobAnswers` | packages/orchestrator/src/storage/memory-storage.ts:196-209 | A triple with a colon that was never stored is answered with the job of another triple |
| `LintLog.FixedTtlOutlives` | packages/orchestrator/src/storage/memory-storage.ts:103-125 | Deadlines that are the moment of the store plus one time to live, and a clock that never goes back, make the latest store outlive the others |
| `LintLog.AnswersUntilDeadline` | packages/orchestrator/src/storage/memory-storage.ts:121-209 | The one slot of a colon-free triple answers with the job stored last for it, if nothing has withdrawn it, until exactly one time to live after its store |
| `LintStore.PartitionAdd` | packages/orchestrator/src/storage/memory-storage.ts:131-155 | Storing keeps one set-valued index the partition of the live jobs by its field if and only if the id is new or is stored again under the same field |
| `LintStore.PartitionDrop` | packages/orchestrator/src/storage/memory-storage.ts:365-402 | Removing a job from one set, and the set once it is empty, keeps the index the exact partition |
| `LintStore.TimeAdd` | packages/orchestrator/src/storage/memory-storage.ts:157-161 | Push and sort keep the time index a newest-first list of every live job, equal times in order of storing |
| `LintStore.TimeDrop` | packages/orchestrator/src/storage/memory-storage.ts:404-408 | Splicing the first slot of the id out keeps it so |
| `LintStore.CompositeAdd` | packages/orchestrator/src/storage/memory-storage.ts:137-143 | Overwriting the key keeps the composite index pointing at exactly the live jobs stored last under their key |
| `LintStore.CompositeDrop` | packages/orchestrator/src/storage/memory-storage.ts:374-384 | Deleting the key only if it points at the removed job keeps it so |
| `LintStore.AddCoherent` | packages/orchestrator/src/storage/memory-storage.ts:121-164 | One store keeps the map and all five indexes in step with each other and with the log if and only if the id is new |
| `LintStore.TimeAgain` | packages/orchestrator/src/storage/memory-storage.ts:157-161 | Storing an id again leaves its old slot in the time index, out of date or doubled |
| `LintStore.DropCoherent` | packages/orchestrator/src/storage/memory-storage.ts:353-413 | One removal keeps all five indexes and the map in step |
| `LintStore.FaithfulDrop` | packages/orchestrator/src/storage/memory-storage.ts:172-186 | Lazy removal of an expired job cannot be noticed by any later question |
| `LintStore.FaithfulInvalidation` | packages/orchestrator/src/storage/memory-storage.ts:234-251 | Invalidating a document leaves exactly the jobs the log still offers |
| `LintStore.SlotAnswers` | packages/orchestrator/src/storage/memory-storage.ts:196-209 | What the composite index offers is what the log's one slot per key offers |
| `LintStore.MemoryLintStorage.constructor` | packages/orchestrator/src/storage/memory-storage.ts:90-97 | A new store is empty, coherent, and has no time to live |
| `LintStore.MemoryLintStorage.Initialize` | packages/orchestrator/src/storage/memory-storage.ts:103-114 | The time to live is set from seconds; zero leaves it as it was |
| `LintStore.MemoryLintStorage.StoreJob` | packages/orchestrator/src/storage/memory-storage.ts:121-164 | For every job: the map and each index change as for a new id, the log grows by this store with the moment of the store plus the time to live as its deadline, and the store stays in order if and only if the id is new |
| `LintStore.StoredAgain` | packages/orchestrator/src/storage/memory-storage.ts:121-164 | A run that stores one job twice ends with one job and two slots for it |
| `LintStore.ShortenedTtl` | packages/orchestrator/src/storage/memory-storage.ts:103-209 | A run that shortens the time to live between two stores of a triple misses the job that is still on offer |
| `LintStore.StoreThenRetrieve` | packages/orchestrator/src/storage/memory-storage.ts:121-186 | A job stored under a new id is retrieved by its id up to and including the moment of its store plus the time to live, and not later |
| `LintStore.StoreThenAsk` | packages/orchestrator/src/storage/memory-storage.ts:121-209 | The same of a job asked for by its colon-free triple, with nothing stored in between |
| `LintStore.MemoryLintStorage.RetrieveJobById` | packages/orchestrator/src/storage/memory-storage.ts:172-186 | The unexpired job of the id or nothing; an expired one is removed from everywhere on the way |
| `LintStore.MemoryLintStorage.RemoveEntry` | packages/orchestrator/src/storage/memory-storage.ts:353-413 | Exactly this job leaves the map and all five indexes; an unknown id changes nothing |
| `LintStore.MemoryLintStorage.RetrieveJob` | packages/orchestrator/src/storage/memory-storage.ts:196-209 | For a colon-free triple, in every run with one time to live, the latest stored, unexpired and not withdrawn job of the triple, or nothing only if there is none; the job stored last answers until its time is up |
| `LintStore.MemoryLintStorage.Exists` | packages/orchestrator/src/storage/memory-storage.ts:219-226 | True iff such a job would be retrieved |
| `LintStore.MemoryLintStorage.Invalidate` | packages/orchestrator/src/storage/memory-storage.ts:234-251 | Exactly the document's live jobs go, and their number is returned |
| `LintStore.MemoryLintStorage.Clear` | packages/orchestrator/src/storage/memory-storage.ts:308-319 | Everything goes, and the count is the number of jobs there were |
| `LintStore.MemoryLintStorage.CleanupExpired` | packages/orchestrator/src/storage/memory-storage.ts:422-444 | The sweep takes exactly the expired jobs, counts them, and does nothing without a time to live |
| `LintStore.MemoryLintStorage.Candidates` | packages/orchestrator/src/storage/memory-storage.ts:452-511 | Narrowing by the indexes one after another is one filter of the stored jobs, in their order |
| `LintStore.MemoryLintStorage.ListJobs` | packages/orchestrator/src/storage/memory-storage.ts:452-550 | The index-driven listing equals filter, stable sort, slice over all unexpired jobs, each told field by field without its issues |
| `LintStore.MemoryLintStorage.QueryJobResults` | packages/orchestrator/src/storage/memory-storage.ts:651-708 | For an unexpired job only: its header field by field, a page of exactly the issues that meet all criteria, those criteria, and any cut |
| `LintStore.MemoryLintStorage.GetJobStats` | packages/orchestrator/src/storage/memory-storage.ts:713-771 | For an unexpired job, each rule with the number of issues it reported and the severity of the first, adding up to all issues, and the top paths with the number of issues under each |
| `JobQueries.ListingCorrect` | packages/orchestrator/src/storage/memory-storage.ts:452-550 | A listing holds a job iff its time is not up and it meets each given criterion, in the direction asked for by the key asked for, ties as stored |
| `JobQueries.PageOfListing` | packages/orchestrator/src/storage/memory-storage.ts:514-537 | Every page is the named stretch of one and the same sorted listing |
| `JobQueries.DefaultPage` | packages/orchestrator/src/storage/memory-storage.ts:453-464 | A page asked for without offset and limit is the first fifty |
| `JobQueries.ListPagesPartition` | packages/orchestrator/src/storage/memory-storage.ts:452-550 | The pages of an unchanged store, asked for one after another until one is empty, concatenate to the whole listing |
| `JobQueries.FilterIssuesMeetsAll` | packages/orchestrator/src/storage/memory-storage.ts:626-646 | Filtering by one criterion after another keeps exactly the issues that meet all of them, in order |
| `JobQueries.DotsBetween` | packages/orchestrator/src/storage/memory-storage.ts:637-643 | The path a prefix is compared with reads as its segments with a dot between each two |
| `JobQueries.PageSlicesMatching` | packages/orchestrator/src/storage/memory-storage.ts:651-708 | A page shows the issues that meet all criteria at once, however they were filtered |
| `JobQueries.HasMoreExactly` | packages/orchestrator/src/storage/memory-storage.ts:667-692 | The page is that slice of the matching issues, with their true number, and "has more" is true of them if and only if the offset is not negative or there is more indeed |
| `JobQueries.LastPageHasMore` | packages/orchestrator/src/storage/memory-storage.ts:667-692 | Asked for from behind, the last page is said to have more |
| `JobQueries.ReadAllIsComplete` | packages/orchestrator/src/storage/memory-storage.ts:651-708 | A reader that advances by what was returned while there is more sees every matching issue once, in order |
| `StableSort.SortIsStable` | packages/orchestrator/src/storage/memory-storage.ts:160-161 | The sort used for the model's `Array.prototype.sort` is sorted, keeps ties in order, and loses nothing |
| `StableSort.StableSortIsUnique` | packages/orchestrator/src/storage/memory-storage.ts:160-161 | There is only one stable sort, so nothing depends on how it is computed |
| `JobStats.TallyRules` | packages/orchestrator/src/storage/memory-storage.ts:725-733 | One pass counts each rule exactly and keeps its first severity |
| `JobStats.RuleBreakdown` | packages/orchestrator/src/storage/memory-storage.ts:725-738 | Each rule once, with the number of issues it reported and the severity of the first, largest first, every issue under the rule named by its id or else its code, and the counts sum to the number of issues |
| `JobStats.SortedBreakdown` | packages/orchestrator/src/storage/memory-storage.ts:736-738 | Sorting the tallied rules gives that breakdown, ties in order of first appearance |
| `JobStats.BreakdownAddsUp` | packages/orchestrator/src/storage/memory-storage.ts:725-738 | The counts of any exact breakdown sum to the number of issues |
| `JobStats.TallyPrefixes` | packages/orchestrator/src/storage/memory-storage.ts:741-747 | One pass counts each two-part path prefix exactly |
| `JobStats.TopPaths` | packages/orchestrator/src/storage/memory-storage.ts:741-752 | At most twenty prefixes in descending order, each with the number of issues whose first two path segments it names, and none left out outranks one listed |
| `JobStats.TopOf` | packages/orchestrator/src/storage/memory-storage.ts:749-752 | Cutting a ranked list at twenty leaves out only what everything listed outranks |
| `Postings.PushExact` | packages/document-store/src/core/datastore-manager.ts:566-606 | Filing a new document's keys adds its id to exactly those lists, once each, even when two keys coincide |
| `Postings.DropExact` | packages/document-store/src/core/datastore-manager.ts:608-645 | Dropping a document takes its id out of exactly its lists and leaves no empty list |
| `Postings.ExactIsUnique` | packages/document-store/src/core/datastore-manager.ts:647-653 | At most one index is exact for given documents |
| `SearchIndex.UpdatedExact` | packages/document-store/src/core/datastore-manager.ts:566-606 | In all four dimensions, the incremental update is exact for the documents with the new one |
| `SearchIndex.RemovedExact` | packages/document-store/src/core/datastore-manager.ts:608-645 | And the incremental removal for the documents without the removed one |
| `SearchIndex.RebuiltExact` | packages/document-store/src/core/datastore-manager.ts:647-653 | A rebuild is exact |
| `SearchIndex.FiledUnder` | packages/document-store/src/core/datastore-manager.ts:566-606 | An exact index files a document under its lower-cased name, its organization if it has one, each of its tags and its version, and nowhere else |
| `SearchIndex.ExactIffRebuilt` | packages/document-store/src/core/datastore-manager.ts:647-653 | An index is exact if and only if it is what a rebuild gives |
| `SearchIndex.IncrementalIsRebuild` | packages/document-store/src/core/datastore-manager.ts:566-653 | Over every run of stores and deletes, the maintained index equals a rebuild from the final metadata |
| `UploadHistory.UploadHistoryManager.Initialize` | packages/document-store/src/core/upload-history-manager.ts:33-65 | Loading an index file restores the uploads in order and their grouping |
| `UploadHistory.UploadHistoryManager.File` | packages/document-store/src/core/upload-history-manager.ts:107-119 | One upload is appended to the record and to its document's list, and to nothing else |
| `UploadHistory.UploadHistoryManager.RecordUpload` | packages/document-store/src/core/upload-history-manager.ts:70-128 | Refused iff the context is over 1024 bytes; otherwise recorded once, and in the index file |
| `UploadHistory.UploadHistoryManager.HistoryIsGrouping` | packages/document-store/src/core/upload-history-manager.ts:133-153 | A document's history is its recorded uploads, each as often as recorded, by falling date, and the count is their number |
| `UploadHistory.UploadHistoryManager.FirstUploadIsEarliest` | packages/document-store/src/core/upload-history-manager.ts:158-165 | The first upload date is the earliest recorded for the document, and absent iff there is none |
| `UploadHistory.UploadHistoryManager.HistoryTells` | packages/document-store/src/core/upload-history-manager.ts:151-165 | Count and date together tell the truth about the document's recorded uploads |
| `UploadHistory.FileExact` | packages/document-store/src/core/upload-history-manager.ts:107-119 | The per-document lists stay exactly the upload index grouped by document |
| `UploadHistory.Reload` | packages/document-store/src/core/upload-history-manager.ts:33-65 | Saving and reloading into a fresh manager gives back both indexes unchanged |
| `VersionLinks.NoRepeats` | packages/document-store/src/core/datastore-manager.ts:318-323 | In a sound lineage no list repeats an id or contains its owner |
| `VersionLinks.StoreKeeps` | packages/document-store/src/core/datastore-manager.ts:230-256 | Storing a new document keeps the lineage sound |
| `VersionLinks.DeleteKeeps` | packages/document-store/src/core/datastore-manager.ts:348-349 | Deleting any document keeps it sound |
| `VersionLinks.LinkKeepsLineage` | packages/document-store/src/core/datastore-manager.ts:318-323 | An update keeps the lineage sound if and only if the new version was created after the old one, and is in no list yet or already has the list it gets |
| `VersionLinks.NewContentFits` | packages/document-store/src/core/datastore-manager.ts:318-323 | A document just created always meets that condition |
| `VersionLinks.OlderContentReversesHistory` | packages/document-store/src/core/datastore-manager.ts:318-323 | Updating the newer of two unrelated documents with the content of the older one makes the history run oldest first, although nothing is listed twice |
| `VersionLinks.HistoryNewestFirst` | packages/document-store/src/core/datastore-manager.ts:428-439 | The live part of a sound history runs strictly from newest to oldest |
| `Datastore.AddConsistent` | packages/document-store/src/core/datastore-manager.ts:230-260 | Registering a new document keeps index, checksums and quota in order together |
| `Datastore.AddedLineage` | packages/document-store/src/core/datastore-manager.ts:230-260 | And the lineage |
| `Datastore.AddedReads` | packages/document-store/src/core/datastore-manager.ts:230-290 | A new document is read back with the content it was stored with, and every other document as before |
| `Datastore.LiveIsFiled` | packages/document-store/src/core/datastore-manager.ts:566-606 | In a store in order every live document is found under its name, organization, tags and version |
| `Datastore.DatastoreManager.ReadAsStored` | packages/document-store/src/core/datastore-manager.ts:273-290 | In every reachable state a live document is read back with the content it was stored with |
| `Datastore.DropConsistent` | packages/document-store/src/core/datastore-manager.ts:331-357 | So does deleting one |
| `Datastore.StoredLinks` | packages/document-store/src/core/datastore-manager.ts:318-323 | Linking a new version leaves index, checksums and quota in order |
| `Datastore.UpdateLineage` | packages/document-store/src/core/datastore-manager.ts:292-329 | After an update the lineage is sound exactly when the content was new or the known document fits as the next version |
| `Datastore.DatastoreManager.constructor` | packages/document-store/src/core/datastore-manager.ts:96-125 | A new store is empty and in order |
| `Datastore.DatastoreManager.GetCurrentStorageSize` | packages/document-store/src/core/datastore-manager.ts:655-661 | The sum of the sizes of the live documents |
| `Datastore.DatastoreManager.FindByChecksum` | packages/document-store/src/core/datastore-manager.ts:479-481 | A live document of this checksum, or nothing only if there is none |
| `Datastore.DatastoreManager.UpdateSearchIndex` | packages/document-store/src/core/datastore-manager.ts:566-606 | The four loops add the document to the four dimensions |
| `Datastore.DatastoreManager.RemoveFromSearchIndex` | packages/document-store/src/core/datastore-manager.ts:608-645 | The four loops take it out again |
| `Datastore.DatastoreManager.RebuildSearchIndex` | packages/document-store/src/core/datastore-manager.ts:647-653 | The rebuild equals the index already maintained, in every reachable state |
| `Datastore.DatastoreManager.StoreDocument` | packages/document-store/src/core/datastore-manager.ts:127-271 | Refused exactly for quota, parse, format or context, in that order and without effect; else the upload is recorded and known content is reported with its true count; new content is read back as it was parsed, recorded as given and found by its fields, and every other document is read as before |
| `Datastore.DatastoreManager.StoreParsed` | packages/document-store/src/core/datastore-manager.ts:184-271 | Content is registered iff no live document has its checksum; the upload is recorded either way |
| `Datastore.DatastoreManager.RegisterNew` | packages/document-store/src/core/datastore-manager.ts:226-260 | The new record says what was given and what the content says, and is read back with that content |
| `Datastore.DatastoreManager.Register` | packages/document-store/src/core/datastore-manager.ts:230-260 | Exactly one record, file and set of index lines are added, the content is remembered, and the quota still holds |
| `Datastore.DatastoreManager.UpdateDocument` | packages/document-store/src/core/datastore-manager.ts:292-329 | Refused for an unknown id or whatever storing refuses, without effect; else stored, linked and the old version superseded; a new version takes every field not given from the old record, is read back as parsed and found by its fields; the lineage survives exactly when the content is new or the known document fits |
| `Datastore.DatastoreManager.LinkVersions` | packages/document-store/src/core/datastore-manager.ts:318-323 | Only the list of the new and the latest mark of the old version change, also when the two are one document |
| `Datastore.UpdateWithOlder` | packages/document-store/src/core/datastore-manager.ts:292-329 | In any store in order, an update that brings the content of an older document, or the document's own, succeeds and ends the lineage |
| `Datastore.DatastoreManager.DeleteDocument` | packages/document-store/src/core/datastore-manager.ts:331-357 | Fails only for an unknown id; else record and index lines go, and the file if it can be unlinked; the id is not read any more and every other one as before |
| `Datastore.DatastoreManager.GetVersionHistory` | packages/document-store/src/core/datastore-manager.ts:428-439 | The document and exactly those of its previous versions that are live, strictly newest to oldest while the lineage is sound |
| `Datastore.LoadMetadata` | packages/document-store/src/core/datastore-manager.ts:516-537 | Each saved record is read into a new one that says the same, in the order they were saved |
| `Datastore.DatastoreManager.LoadSearchIndex` | packages/document-store/src/core/datastore-manager.ts:545-559 | The index is read from its file, or built anew if there is none |
| `Datastore.Restart` | packages/document-store/src/core/datastore-manager.ts:106-125 | Starting again from the files, with or without the index file, gives the same records, contents, search index, lineage and upload history |
| `StoreRace.AdmitBounded` | packages/document-store/src/core/datastore-manager.ts:145-190 | One more store past the quota and duplicate tests keeps both bounds, however many are past them already |
| `StoreRace.ConcurrentStore.constructor` | packages/document-store/src/core/datastore-manager.ts:96-104 | An empty store is within its bounds |
| `StoreRace.ConcurrentStore.Test` | packages/document-store/src/core/datastore-manager.ts:145-190 | A store passes if and only if the quota has room and no registered document has its content at that moment |
| `StoreRace.ConcurrentStore.Land` | packages/document-store/src/core/datastore-manager.ts:250-255 | The document is registered without another test |
| `StoreRace.ConcurrentStore.Fail` | packages/document-store/src/core/datastore-manager.ts:197-252 | A store that fails after the tests registers nothing |
| `StoreRace.ConcurrentStore.Delete` | packages/document-store/src/core/datastore-manager.ts:348-349 | A deletion keeps the bounds for the stores under way |
| `StoreRace.StoresBounded` | packages/document-store/src/core/datastore-manager.ts:127-271 | With at most f stores ever past the tests at once, no content is registered more than f times, and the quota is exceeded by at most f - 1 documents of the largest size |
| `StoreRace.ReachBounds` | packages/document-store/src/core/datastore-manager.ts:127-271 | For every f, content and size some run reaches both bounds |
| `DocumentCache.DocumentCache.constructor` | packages/document-store/src/core/document-cache.ts:30-36 | An empty cache in step with an empty reference list |
| `DocumentCache.DocumentCache.Get` | packages/document-store/src/core/document-cache.ts:38-59 | Nothing is served later than one hour after it was set; a hit is counted and its access time set; on an advancing clock the answer is the reference list's |
| `DocumentCache.DocumentCache.Set` | packages/document-store/src/core/document-cache.ts:61-75 | The entry is fresh, only the entry used longest before now may make room for it, and the size limit holds except exactly when a full cache holds nothing last used before now |
| `DocumentCache.DocumentCache.EvictLRU` | packages/document-store/src/core/document-cache.ts:113-128 | The first of the entries used longest before now goes, and none iff there is none |
| `DocumentCache.TwoInOneTick` | packages/document-store/src/core/document-cache.ts:61-75 | A run that caches two documents within one tick outgrows a cache for one |
| `DocumentCache.DocumentCache.Invalidate` | packages/document-store/src/core/document-cache.ts:77-82 | Exactly this entry goes |
| `DocumentCache.DocumentCache.Clear` | packages/document-store/src/core/document-cache.ts:84-88 | Every entry goes |
| `DocumentCache.DocumentCache.Sweep` | packages/document-store/src/core/document-cache.ts:130-148 | Exactly the expired entries go |
| `DocumentCache.GetInStep` | packages/document-store/src/core/document-cache.ts:38-59 | On an advancing clock a read keeps the cache in step with the reference recency list |
| `DocumentCache.SetInStep` | packages/document-store/src/core/document-cache.ts:61-75 | So does a write after any eviction |
| `DocumentCache.EvictInStep` | packages/document-store/src/core/document-cache.ts:113-128 | On an advancing clock the victim is the head of the reference list, so exactly the least recently used entry |
| `DocumentCache.DropInStep` | packages/document-store/src/core/document-cache.ts:77-82 | Removing an entry keeps the two in step |
| `Coordinator.DroppedCoherent` | packages/document-store/src/core/document-coordinator.ts:129-139 | After a delete only the deleted document's own cache entry could be stale |
| `Coordinator.AddedCoherent` | packages/document-store/src/core/document-coordinator.ts:64-92 | A new document makes no cache entry stale |
| `Coordinator.DocumentCoordinator.constructor` | packages/document-store/src/core/document-coordinator.ts:23-27 | A new coordinator has an empty cache in front of its store |
| `Coordinator.DocumentCoordinator.GetDocument` | packages/document-store/src/core/document-coordinator.ts:40-57 | Whatever the clock and evictions did, the answer is what the datastore would return, shared metadata record included |
| `Coordinator.DocumentCoordinator.StoreDocument` | packages/document-store/src/core/document-coordinator.ts:64-92 | Write through: the store ends as the datastore's own store leaves it, a new document with the content it was parsed to and every other one read as before, and the cached copy is the stored one; a refusal touches neither side |
| `Coordinator.DocumentCoordinator.UpdateDocument` | packages/document-store/src/core/document-coordinator.ts:100-122 | The cached new version is the stored one, with what was not given taken from the old record, and no other entry goes stale although the old record is changed in place |
| `Coordinator.DocumentCoordinator.DeleteDocument` | packages/document-store/src/core/document-coordinator.ts:129-139 | A deleted document is in neither the store nor the cache, and every other one is read as before |
| `Coordinator.DocumentCoordinator.SweepCache` | packages/document-store/src/core/document-cache.ts:130-148 | The cache's own timer never makes an answer wrong |
| `Coordinator.StoreThenRead` | packages/document-store/src/core/document-coordinator.ts:40-92 | A document stored and then read through the coordinator, at any clock, comes back as it was parsed; known content comes back as it was first stored |
| `Coordinator.UpdateThenRead` | packages/document-store/src/core/document-coordinator.ts:40-122 | A new version read at any clock has the new content, and each field that was not given from the old record |
| `WorkerPool.ScaleUpTarget` | packages/orchestrator/src/worker-pool.ts:581-586 | A scale-up creates a worker of the ruleset it counted if and only if neither name nor version contains the separator |
| `WorkerPool.ScaleUpMisses` | packages/orchestrator/src/worker-pool.ts:581-586 | For a ruleset named `a@b` it asks for ruleset `a` in version `b` |
| `WorkerPool.PartitionAdd` | packages/orchestrator/src/worker-pool.ts:487-493 | Registering keeps the lists by ruleset the exact partition of the workers |
| `WorkerPool.PartitionDrop` | packages/orchestrator/src/worker-pool.ts:534-537 | Removing from both maps keeps it so |
| `WorkerPool.QueueJoin` | packages/orchestrator/src/worker-pool.ts:272-284 | Joining the queue keeps it in ticket order with one armed timer each |
| `WorkerPool.QueueLeave` | packages/orchestrator/src/worker-pool.ts:502-512 | Leaving settles exactly that waiter, for the first and only time, and keeps the order of the others |
| `WorkerPool.WorkerPoolManager.constructor` | packages/orchestrator/src/worker-pool.ts:88-112 | An empty pool is in order |
| `WorkerPool.WorkerPoolManager.Candidates` | packages/orchestrator/src/worker-pool.ts:238-245 | Exactly the registered workers of the key that are neither failed nor terminated |
| `WorkerPool.WorkerPoolManager.LeastBusy` | packages/orchestrator/src/worker-pool.ts:258-260 | The first of those with the fewest tasks |
| `WorkerPool.WorkerPoolManager.SelectNow` | packages/orchestrator/src/worker-pool.ts:226-270 | A ready worker of the key with least tasks, taken from the holders of the document if any is ready; otherwise which way there is none |
| `WorkerPool.WorkerPoolManager.Wait` | packages/orchestrator/src/worker-pool.ts:270-285 | One waiter joins at the end, its timer armed |
| `WorkerPool.WorkerPoolManager.WaitTimeout` | packages/orchestrator/src/worker-pool.ts:273-278 | Exactly the waiter of the timer leaves, with nothing |
| `WorkerPool.WorkerPoolManager.NotifyWorkerReady` | packages/orchestrator/src/worker-pool.ts:502-512 | The oldest waiter for the worker's ruleset gets it; the order of all others is kept; nothing changes if there is none |
| `WorkerPool.WorkerPoolManager.Settle` | packages/orchestrator/src/worker-pool.ts:502-512 | One waiter leaves the queue, its timer is disarmed and it is resolved once |
| `WorkerPool.WorkerPoolManager.StartTask` | packages/orchestrator/src/worker-pool.ts:304-306 | Busy from here on, with a current task |
| `WorkerPool.WorkerPoolManager.TaskResult` | packages/orchestrator/src/worker-pool.ts:309-349 | Ready without a task, one task further, the document remembered on a successful hit, and the oldest waiter told |
| `WorkerPool.WorkerPoolManager.TaskTimeout` | packages/orchestrator/src/worker-pool.ts:367-382 | Ready without a task, and the oldest waiter told |
| `WorkerPool.WorkerPoolManager.WorkerError` | packages/orchestrator/src/worker-pool.ts:352-365 | The worker fails and is restarted if and only if retries are allowed at all, since its restart count never grows |
| `WorkerPool.WorkerPoolManager.TestCapacity` | packages/orchestrator/src/worker-pool.ts:415-418 | The test passes iff there is room at that moment |
| `WorkerPool.WorkerPoolManager.Register` | packages/orchestrator/src/worker-pool.ts:486-494 | The worker joins both maps, ready, without another test and without telling any waiter |
| `WorkerPool.WorkerPoolManager.CreationFailed` | packages/orchestrator/src/worker-pool.ts:454-484 | A creation that fails registers nothing |
| `WorkerPool.WorkerPoolManager.Unregister` | packages/orchestrator/src/worker-pool.ts:531-537 | The worker leaves both maps if it is still there; the queue is untouched |
| `WorkerPool.WorkerPoolManager.Shutdown` | packages/orchestrator/src/worker-pool.ts:669-702 | Every waiter is settled with nothing, in order, and both maps are emptied |
| `WorkerPool.WorkerPoolManager.Monitor` | packages/orchestrator/src/worker-pool.ts:556-594 | One more worker iff the queue presses and both limits leave room; one less, an idle one with least tasks, iff all are idle and above the minimum |
| `WorkerPool.WorkersBounded` | packages/orchestrator/src/worker-pool.ts:415-418 | With at most f creations ever past the test at once, at most f - 1 workers too many |
| `WorkerPool.ReachBound` | packages/orchestrator/src/worker-pool.ts:415-494 | For every limit and f some run reaches that bound |
| `Shrinker.ShrinkNotification` | packages/reports/src/client/index.ts:322-426 | The loops return the first cap's payload that fits, the re-marked stripped payload, or the last resort |
| `Shrinker.ShrunkIsPrefix` | packages/reports/src/client/index.ts:322-426 | Each ruleset keeps a prefix of its issues, each with its code, message, severity and path but no source and range; names, versions, summaries and everything else are untouched |
| `Shrinker.LateMarks` | packages/reports/src/client/index.ts:338-353 | Where stripping is enough all issues stay, and a ruleset is marked, with the count of the first of its name, if and only if it has fewer issues than that |
| `Shrinker.FirstCap` | packages/reports/src/client/index.ts:355-360 | The first cap is nine tenths of the issues that fit at the average size, rounded down, but at least 1 |
| `Shrinker.CutFitsOrLastResort` | packages/reports/src/client/index.ts:367-425 | A payload that had to be cut fits and marks exactly the shortened rulesets with their original count, or is the last resort |
| `Shrinker.FirstFitChoice` | packages/reports/src/client/index.ts:367-412 | The loop returns the payload of the first, so largest, cap tried that fits, and the last resort only if none of twenty does |
| `Shrinker.CapFalls` | packages/reports/src/client/index.ts:405-405 | The cap falls strictly from round to round until it is 1 |
| `Shrinker.RemarkNothing` | packages/reports/src/client/index.ts:344-351 | The marks made after stripping change nothing if and only if no ruleset is shorter than its first namesake without being marked so |
| `Shrinker.FitsExactly` | packages/reports/src/client/index.ts:308-425 | The payload fits the limit if and only if it still does with the late marks, where stripping is enough, or one of the twenty caps or the last resort fits, where it is not |
| `Shrinker.FitsOrLastResortExactly` | packages/reports/src/client/index.ts:338-425 | At a given limit the result fits or is the last resort if and only if no late mark is new, stripping is not enough, or the late marks still fit |
| `Shrinker.AsCalled` | packages/reports/src/client/index.ts:156-167 | For the calls the client makes, at every limit, that is if and only if the late marks do not lengthen the stripped payload or stripping does not shorten the original |
| `Shrinker.OversizedIssue` | packages/reports/src/client/index.ts:414-425 | Single issues too large by themselves leave a last resort that exceeds the limit |
| `Shrinker.ShorterNamesake` | packages/reports/src/client/index.ts:344-351 | A ruleset with fewer issues than an earlier one of its name, and not marked, gets a new mark |
| `Shrinker.DistinctNames` | packages/reports/src/client/index.ts:344-351 | Distinct ruleset names are enough |
| `Shrinker.CapIsPrefix` | packages/reports/src/client/index.ts:374-389 | A capped ruleset keeps the first issues and is marked iff it lost some |
| `Shrinker.MinimalIsPrefix` | packages/reports/src/client/index.ts:418-424 | The last resort keeps one issue a ruleset and marks every one, cut or not |
| `Shrinker.NextCap` | packages/reports/src/client/index.ts:405-405 | The cap falls by a tenth, rounded down, to at least 1, and strictly above 1 |
| `PendingStorage.UnlinkingIsSafe` | packages/reports/src/client/storage.ts:143-163 | A pending file may go if and only if its notification is among the dead letters or acknowledged |
| `PendingStorage.BuryingIsSafe` | packages/reports/src/client/storage.ts:155-155 | Writing the dead letter first loses nothing |
| `PendingStorage.CountingIsSafe` | packages/reports/src/client/storage.ts:87-101 | Rewriting the attempt count loses nothing |
| `PendingStorage.WritesAreSafe` | packages/reports/src/client/storage.ts:34-50 | Storing and acknowledging lose nothing |
| `PendingStorage.PendingStorage.constructor` | packages/reports/src/client/storage.ts:14-29 | A starting client takes over whatever files it finds |
| `PendingStorage.PendingStorage.Store` | packages/reports/src/client/storage.ts:34-50 | The full notification is pending with no attempts if and only if the write works; otherwise nothing changes |
| `PendingStorage.PendingStorage.UpdateAttempt` | packages/reports/src/client/storage.ts:87-101 | One attempt more if and only if the file is there and both read and write work; otherwise nothing changes |
| `PendingStorage.PendingStorage.Remove` | packages/reports/src/client/storage.ts:106-116 | The file of an acknowledged notification goes; one already gone is no error |
| `PendingStorage.PendingStorage.MoveToDeadLetter` | packages/reports/src/client/storage.ts:143-163 | The dead letter is written first and the pending file unlinked second, each a recorded step as far as the operations work, so that after each of them every stored notification is pending, dead-lettered or acknowledged |
| `PendingStorage.MovedInName` | packages/reports/src/client/storage.ts:155-160 | A move is reported although the file is still pending if and only if one of its operations finds nothing |
| `PendingStorage.MoveIntoMissingDirectory` | packages/reports/src/client/storage.ts:155-160 | A run with a missing dead-letter directory reports a move that has moved nothing |
| `PendingStorage.PendingStorage.SetPending` | packages/reports/src/client/storage.ts:46-112 | One file of the pending directory at a time, and the disk is recorded after it |
| `PendingStorage.PendingStorage.SetDeadLetter` | packages/reports/src/client/storage.ts:155-155 | One file of the dead-letter directory at a time, and the disk is recorded after it |
| `PendingStorage.PendingStorage.List` | packages/reports/src/client/storage.ts:55-82 | Files as they are, each at most once, and all of them if every read works |
| `ReportClient.Classify` | packages/reports/src/client/index.ts:431-469 | Delivered iff a success status carries a success flag; permanent, with its status, iff that is 400, 413 or 422 and the text does not mention a refused connection |
| `ReportClient.MentionedSomewhere` | packages/reports/src/client/index.ts:462-462 | A text mentions a phrase if and only if the phrase stands somewhere in it |
| `ReportClient.ValidateNotification` | packages/reports/src/client/index.ts:250-305 | The errors are exactly the faults of the payload, each with its place, and there are none if and only if the payload is acceptable |
| `ReportClient.ReportServiceClient.SendNotification` | packages/reports/src/client/index.ts:431-469 | One request, classified; a delivery is an acknowledgement |
| `ReportClient.ReportServiceClient.SendWithRetries` | packages/reports/src/client/index.ts:170-241 | At most `maxRetries + 1` sends, stopped by the first reply that is not transient, and at most `baseRetryDelay * (2^maxRetries - 1)` of waiting |
| `ReportClient.ReportServiceClient.PutAsideFor` | packages/reports/src/client/index.ts:184-229 | The full notification goes to the pending files, or on to the dead letters if refused for good, each file operation a recorded step |
| `ReportClient.ReportServiceClient.Notify` | packages/reports/src/client/index.ts:131-244 | A valid notification not known before ends acknowledged, pending or dead-lettered, in exactly one of the three when files work; undelivered it is on disk if and only if its first write works; all that is sent is the notification itself or, over the limit, prefixes of its issue lists with only source and range gone; every step on the disk is recorded in order; an invalid one changes nothing |
| `ReportClient.KeptIfWritten` | packages/reports/src/client/index.ts:184-229 | An undelivered notification is on disk if and only if its first write worked, whatever became of the move; while pending it has no attempts yet |
| `ReportClient.LostThoughStored` | packages/reports/src/client/index.ts:211-229 | A run without an answer and with a failing write says "stored locally" of a notification that is nowhere |
| `ReportClient.NamesakesOverLimit` | packages/reports/src/client/index.ts:156-174 | A run that shrinks a payload of namesakes and sends it over the limit every time |
| `ReportClient.InOnePlace` | packages/reports/src/client/index.ts:170-241 | When files work, a notification not known before ends in exactly one place, however its last request ended |
| `ReportClient.ReportServiceClient.RetryOne` | packages/reports/src/client/index.ts:535-596 | Whatever fails, no other file is touched and every step is recorded in order; with working files the item is delivered and gone, dead-lettered and gone, or one attempt further with tries left |
| `ReportClient.FortuneTells` | packages/reports/src/client/index.ts:535-596 | How an item is counted tells where it is when files work |
| `ReportClient.ReportServiceClient.RetryPendingNotifications` | packages/reports/src/client/index.ts:512-633 | Pending equals delivered plus failed plus moved; with working files exactly the failed ones are left, each one attempt further |
| `ReportClient.ReportServiceClient.Drain` | packages/reports/src/client/index.ts:512-633 | Run after run the attempts grow by one, so more runs than `maxPendingRetries` leave nothing pending |
| `ReportClient.LeavesInTime` | packages/reports/src/client/index.ts:535-556 | With new notifications arriving between runs, an item with `a` attempts has left after `maxPendingRetries - a + 1` runs |
| `ReportClient.AdvancedThenStored` | packages/reports/src/client/index.ts:512-633 | A run and then notifications under fresh ids is such a step |
| `JobExecution.ExecuteTaskWithRetry` | packages/orchestrator/src/orchestrator.ts:503-548 | The first success within the attempts allowed, or the error of the last: what was thrown, what was returned, or a default; the sleeps are the capped backoff of the failed attempts |
| `JobExecution.DelaysGrow` | packages/orchestrator/src/orchestrator.ts:534-542 | The first delay is the initial one and each later one the one before times the multiplier, all capped |
| `JobExecution.Collect` | packages/orchestrator/src/orchestrator.ts:381-397 | Results stay the first issues up to the limit, the count stays exact, and a cut is reported iff issues are lost or a list arrives past the limit |
| `JobExecution.LintJob.Start` | packages/orchestrator/src/orchestrator.ts:351-356 | One more running and one less queued; the columns still add up |
| `JobExecution.LintJob.Finish` | packages/orchestrator/src/orchestrator.ts:361-417 | Running becomes exactly one of completed, failed and timeout; the columns still add up |
| `JobExecution.LintJob.RunTask` | packages/orchestrator/src/orchestrator.ts:349-418 | Around the wait for a task the progress adds up, and the task comes to its only possible outcome |
| `JobExecution.LintJob.ExecuteJob` | packages/orchestrator/src/orchestrator.ts:339-475 | For every task list: conserved progress, exactly the first `maxIssues` issues in order, all of them if they are no more, the summary counting positions of each severity, cuts reported truly for one task and a positive limit, and timeout over errors over completed |
| `JobExecution.TruncationExact` | packages/orchestrator/src/orchestrator.ts:381-397 | Cuts are reported exactly when issues are lost, whatever the tasks return, if and only if the job has no task, or one task and a limit of at least one |
| `JobExecution.FillingMisreports` | packages/orchestrator/src/orchestrator.ts:381-397 | A first task that fills the limit and others that find nothing are reported as a cut |
| `JobExecution.AlwaysComesTo` | packages/orchestrator/src/orchestrator.ts:503-548 | Every list of issues is what some pool makes of a task, so every such job can happen |
| `JobExecution.CleanJobReportsCut` | packages/orchestrator/src/orchestrator.ts:339-475 | A job as the service makes it, of one task that finds nothing, reports a cut under a limit of zero |
| `JobExecution.SummaryAddsUp` | packages/orchestrator/src/orchestrator.ts:459-465 | The four severity counts add up to the total if and only if every issue has one of the four severities |
| `JobExecution.SummarySums` | packages/orchestrator/src/orchestrator.ts:459-465 | The total is the number of results, and errors, warnings, infos and hints are the numbers of positions with severity 0, 1, 2 and 3 |
| `JobExecution.CountZero` | packages/orchestrator/src/orchestrator.ts:420-428 | A progress column is zero iff no task ended there |
| `Admission.Orchestrator.constructor` | packages/orchestrator/src/orchestrator.ts:89-89 | No jobs, none counted |
| `Admission.Orchestrator.TestCapacity` | packages/orchestrator/src/orchestrator.ts:208-217 | A submission passes iff there is room at that moment |
| `Admission.Orchestrator.Abandon` | packages/orchestrator/src/orchestrator.ts:219-233 | A cached result or a missing document ends a submission uncounted |
| `Admission.Orchestrator.Launch` | packages/orchestrator/src/orchestrator.ts:241-285 | The job is recorded and counted without another test |
| `Admission.Orchestrator.End` | packages/orchestrator/src/orchestrator.ts:420-428 | A final status does not free the place yet |
| `Admission.Orchestrator.Settle` | packages/orchestrator/src/orchestrator.ts:329-331 | Settling frees exactly one place |
| `Admission.ActiveBounded` | packages/orchestrator/src/orchestrator.ts:208-331 | The counter is the number of launched and unsettled jobs, at least the number queued or running, and at most f - 1 over the limit when at most f submissions are ever past the test |
| `Admission.ReachBound` | packages/orchestrator/src/orchestrator.ts:208-331 | For every limit and f some run reaches that bound |

## Left out

- LintStore.MemoryLintStorage.StoreJob: says what storing an id again does and that the store is then out of order; what later operations do to a store in that state is not modelled.
- LintStore.MemoryLintStorage.Invalidate: is one step, although the original awaits between removals; two overlapping invalidations are not modelled.
- LintStore.MemoryLintStorage.RetrieveJob: the clock never goes back; the time to live is the one in force at each store.
- LintStore.MemoryLintStorage.ListJobs: `localeCompare` is a parameter.
- Datastore.DatastoreManager.StoreDocument: file writes always work and operations do not overlap; `StoreRace` bounds what overlapping stores do to the quota and to duplicates, not to the search index or the versions; SHA-256, parsing and lower-casing are parameters, ids are fresh tokens, and `content.length` counts characters as the original does.
- Coordinator.DocumentCoordinator.GetDocument: covers completed, non-overlapping operations; a read whose awaits straddle a delete could cache the document again and is not modelled.
- DocumentCache.DocumentCache.Set: the size limit is unconditional only on a strictly advancing clock; within one tick of the clock nothing used in that tick is evicted, and the contract says exactly when the cache outgrows its limit.
- WorkerPool.WorkerPoolManager.TaskTimeout: may fire after its result, as the original never clears that timer when a result arrives; that a worker has one task at a time is not claimed.
- WorkerPool.WorkerPoolManager.WorkerError: the restart count is never incremented in the original, so the documented limit on restarts has no effect; the contract says what does decide.
- WorkerPool.WorkerPoolManager.Register: tells no waiter, as in the original; that no ready worker coexists with a waiter is not claimed.
- Shrinker.ShrinkNotification: the estimate is computed in integers, where the original multiplies by the floating-point number 0.9; the length of serialised JSON is a parameter.
- Shrinker.CutFitsOrLastResort: the original's description marks only affected rulesets, but its last resort marks all; the model follows the code. The original expects its last resort to fit; `Shrinker.FitsExactly` says when what it returns does.
- ReportClient.ReportServiceClient.Notify: reports "stored locally" before it tries to store, as the original does, so the flag alone promises nothing; `ReportClient.KeptIfWritten` says what does; retries send the full notification, whatever the size limit.
- WorkerPool.WorkerPoolManager.SelectNow: reports that there is no worker where the original creates one, which is `TestCapacity` and later `Register`, and asks again.
- PendingStorage.PendingStorage.MoveToDeadLetter: reports a "not found" as success, as the original does; `PendingStorage.MovedInName` says when the notification is then still pending.
- ReportClient.LeavesInTime: runs do not overlap and ids are fresh; a notification that is stored again under an id that is being retried is not modelled.
- JobExecution.LintJob.ExecuteJob: leaves out the execution details, and what storing, notifying and calling back do afterwards; the engine's limit on the number of spread arguments is not modelled.
- JobExecution.ExecuteTaskWithRetry: delays and multiplier are natural numbers.
- Rule overrides: the original stores overridden results under the same key, so that a cached result is free of overrides is not claimed.
- File writes that leave half a file behind, unreadable JSON files, and `clearPending`.
- Read-only extras: document search and listing, `getDocumentLintActivity`, storage, pool, cache and client statistics, `hasMore` of the orchestrator's job listing.
- HTTP routes, the command line, report database, SARIF and Markdown builders, ruleset loading, Spectral itself, worker threads and their message handlers beyond the state changes above.
- JavaScript object keys that collide with prototype members in the document search index.
