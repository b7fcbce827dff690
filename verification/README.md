# GrepMesh: a verified model

GrepMesh searches text on many hosts. This project models the parts of it in
which several pieces of state have to agree, and proves what they keep.

**The persistent index** (`Bytes`, `IndexTables`, `IndexSpec`, `IndexEffects`,
`IndexProofs`, `IndexCompaction`, `IndexMigration`, `IndexSearchable`,
`PersistentIndexStore`, `IndexRuns`). Four SQLite tables - full-text rows, extraction
cache, row map and metadata - with three triggers that delete mappings and clear a
marker in the middle of a transaction. Every statement is a function on the tables
with its trigger inlined; every operation is a method of the class `PersistentIndex`
that works on a copy and stores it back on commit. `Consistent` says that the row map
is a bijection onto the full-text rows by path and that the cache has the same
paths; `View` is the one map from path to entry that the tables stand for;
`Step` and `Run` are the simple operations on that map. `Repairable` is the weaker
invariant that survives a file that is gone at start-up: such a path keeps its
mapping without a cache row, and its next metadata-only refresh loses the mapping.
From every repairable index a run is a run of `SearchStep` on the texts that a search
reads and the fingerprints in the cache; a life is a run with starts and clears in it. New rowids are any unused number. The OCR
queue and its ledgers are part of the same tables and the same runs.

**Step protocols.** `BrowserReceipts` is the receipt table of browser tasks as a
class, and above it every interleaving of callers, clock steps, replies and
dropped callers; `BrowserCalls` adds to each run the log of what every call was told
and what was written. `EventFraming` is the incremental reader of the subscription
stream (a subset of section 9.2 of the HTML Living Standard: only LF LF and
CR LF CR LF end an event). Fan-out jobs are `SearchMerge` (admission, dropped results,
pages and chains of cursors, on values), `SearchJobs` (the job as a class: merging,
paging, durability, restart), `SearchReaders` (a reader beside host completions and
other readers) and `JobStore` (the bounds of jobs and artifacts). `ResultCache` and
`ComputePermit` are the cache of native results and the one permit under which native
work runs.

**Readers against a simple reading.** `IndexedSearch` and `SearchLaws` (what MATCH and
LIKE must return for the answers to be complete), `Trigrams`, `ReadText`,
`ActivityGuard`, `Utf8` (section 4 of RFC 3629), `PreviewContext`,
`PreviewHandles` and `Ratings`. `Sorting`, `Sets` and `Results` are helpers.

## Where the code does less than promised

Each of these is proved with a concrete run and with the exact condition:

- A metadata-only refresh keeps the row map a bijection if and only if the path has
  a cache row (`RefreshKeepsLinkExactly`); no run loses a text if and only if every
  path with text has one (`AllRunsAreIdealExactly`). A start restores the bijection if
  and only if it migrates or finds it (`Open`), so a lost mapping can survive the
  next start (`LostMappingSurvivesOpen`).
- The row map survives every rollback to an older release if and only if cache and
  row map hold the same paths (`RollbackNeedsEqualPaths`).
- The failure ledger counts the attempts for a version until it is committed if and
  only if no other version of the path reports in between (`CountsUntilCommittedExactly`):
  it has one row for a path, and a file that changes and is restored starts again
  (`RestoredFileStartsAgain`).
- The code asks for a query of three bytes. The index has every matching line if and
  only if the globs name files, the query has three characters or LIKE selects every
  allowed path anyway (`AnswersHaveAllLinesExactly`, `ThreeByteQueryLosesLine`), and
  the candidate paths of the persistent index are sound if and only if the query has
  three characters (`IndexCandidatesAreSoundExactly`, `EuroHasNoCandidates`).
- LIKE folds ASCII only. It finds every matching path if and only if every shortest
  one is the query up to ASCII case (`LikeIsCompleteExactly`); a search without regard
  to case misses the path with the other umlaut (`UmlautPathIsLost`) and, for a query
  that ends in an i, the path with a dotted capital (`DottedCapitalIsLost`).
- At most one submission per live receipt needs deadlines no longer than the life of
  a receipt (`AtMostOneSubmission`, `LongDeadlineAllowsTwoSubmissions`). A task that a
  call resumes is that of the living submission if and only if each job id written to a
  living receipt is written by the caller whose admission created it, which the code
  does not check (`ResumedTasksAreOwnExactly`); a late write replaces the job id of a
  newer receipt (`LateWriteChangesTask`).
- A job holds the first distinct hits it received if and only if persisting never
  dropped a result (`FirstHitsExactly`). A page continues its chain without a gap if
  and only if the cursor stands where the delivered hits that are still held end and
  none of the next ones was dropped (`PageContinuesExactly`, over whole runs
  `FollowCursors`); a run of completions and polls with a store of four kilobytes ends
  complete without a hit the job holds (`SkippedHitRun`).
- A write of a job record that succeeds leaves the record if and only if it and
  everything younger fit the store (`SearchJob.Persist`); a record larger than the
  store is removed by its own write (`TooLargeDoesNotSurvive`).
- `match_truncated` reports every line that lost text except a second text for one
  line number: nothing is lost if and only if the distinct lines fit the limits and no
  two lines of one number differ (`NothingLostExactly`, `DuplicateIsDroppedUnflagged`).
- A cold sample leaves the rating of a class with warm samples alone if and only if it
  does not push a warm one out of a full window (`ColdSampleKeepsRatingExactly`,
  `ColdSampleCanHalveTheScore`).

## Model

| member | source | states |
|---|---|---|
| `Bytes.DirectoryRangeIsPrefix` | src/index.rs:1291-1295 | the byte range from stem/ to stem0 holds exactly the paths that begin with stem/ |
| `IndexSpec.ViewAnswersQueries` | src/index.rs:956-985 | in a consistent index the cached-body query and the search are lookups in the one map |
| `IndexEffects.InvariantsKept` | src/index.rs:330-372 | touching some paths so that each is mapped soundly keeps both invariants for all paths |
| `IndexEffects.StoredRefines` | src/index.rs:756-943 | one stored document is a map update and every other path is unchanged |
| `IndexEffects.GoneRefines` | src/index.rs:1038-1115 | deleting paths is a map restriction |
| `IndexEffects.UpdateKeepsMappingExactly` | src/index.rs:355-360 | updating a cache row keeps the mapping and the marker if and only if the conditional trigger is installed and the mapping names a full-text row of the path |
| `IndexEffects.CacheRowRefines` | src/index.rs:350-365 | rewriting a mapped cache row fires no effective trigger and changes only that path's fingerprint and served body |
| `IndexEffects.RetainedRowCommits` | src/index.rs:826-877 | both branches that keep the full-text row commit the document |
| `IndexEffects.OldRowIsGone` | src/index.rs:878-895 | deleting by rowid, by path or not at all removes every full-text row of the path |
| `IndexEffects.FreshRowCommits` | src/index.rs:896-943 | a fresh rowid never violates the UNIQUE constraint and ends as the one row of its path |
| `IndexEffects.CommittedRefines` | src/index.rs:756-943 | a full commit is one Replace step of the simple map and both queries then return the body |
| `IndexProofs.ErasedRefines` | src/index.rs:987-1115 | erasing paths from all tables keeps the invariants and restricts the map |
| `PersistentIndexStore.PersistentIndex.FreshRowid` | src/index.rs:896-902 | the rowid of an insert is one that no row has |
| `PersistentIndexStore.PersistentIndex.ReplaceDocument` | src/index.rs:756-943 | from a repairable index every branch succeeds and is a Replace or Refresh step; an error leaves the tables alone; a refresh of a mapped path changes one cache row; any other success takes the path off the queue and this version out of both ledgers, and nothing else out of them |
| `PersistentIndexStore.PersistentIndex.StoreFresh` | src/index.rs:878-943 | the branch that writes a new full-text row never fails on a repairable index and replaces the document |
| `PersistentIndexStore.PersistentIndex.RemoveDocument` | src/index.rs:1038-1115 | removal erases exactly the path and takes it off the queue; it fails exactly on a full empty-result ledger, and then nothing changed |
| `PersistentIndexStore.PersistentIndex.PruneExcept` | src/index.rs:987-1036 | prune restricts the index and the map to the seen paths |
| `PersistentIndexStore.PersistentIndex.DeferOcr` | src/index.rs:619-653 | a full queue stays as it is and both flags are set; otherwise the path is added and nothing else changes |
| `PersistentIndexStore.PersistentIndex.AckPendingOcr` | src/index.rs:655-663 | an acknowledgement removes exactly the path |
| `PersistentIndexStore.PersistentIndex.SetOcrOverflow` | src/index.rs:665-672 | setting the overflow flag also asks for a recovery scan |
| `PersistentIndexStore.PersistentIndex.RecordOcrFailures` | src/index.rs:696-730 | the path's one row is for this version, with the old failures of this version and the new ones up to 4; refused exactly on a full ledger |
| `PersistentIndexStore.PersistentIndex.MarkFullRebuild` | src/index.rs:571-589 | a full rebuild records its time and withdraws the recovery scan |
| `PersistentIndexStore.PersistentIndex.CompactDuplicateCacheBodies` | src/index.rs:430-545 | a batch reads 1 to 256 rows, fewer than asked for only when nothing is left or the next comparison exceeds 8 MiB; it empties exactly the duplicates it read, moves the cursor strictly and changes no query |
| `PersistentIndexStore.PersistentIndex.MigrateCacheUpdateTrigger` | src/index.rs:380-428 | the conditional trigger is installed once and the row-map marker is cleared with it |
| `PersistentIndexStore.PersistentIndex.MigrateDocumentRows` | src/index.rs:1117-1166 | when it runs, the newest row of each path stays and the row map becomes a bijection |
| `PersistentIndexStore.PersistentIndex.BackfillCache` | src/index.rs:1168-1213 | mapped paths whose file exists get a cache row, every mapping and the marker are put back |
| `PersistentIndexStore.PersistentIndex.Open` | src/index.rs:1117-1213 | a start restores the bijection if and only if it migrates or finds it; then cached bodies and the OCR state are kept; without a migration it only adds cache rows for mapped files that exist |
| `PersistentIndexStore.PersistentIndex.Clear` | src/index.rs:1217-1223 | clear empties the document tables and all metadata, and leaves the installed trigger and the OCR ledgers |
| `PersistentIndexStore.PersistentIndex.Apply` | src/index.rs:756-1115 | from any repairable index every operation is one step of the searchable texts, from a consistent one a step of the simple map, and it keeps the marker and the settled part of the compaction |
| `PersistentIndexStore.PersistentIndex.RunAll` | src/index.rs:430-1115 | every run from a repairable index, so also from one that a start left, equals the run of the searchable texts; from a consistent index it keeps the four tables consistent and equals the run of the simple map |
| `PersistentIndexStore.PersistentIndex.Live` | src/index.rs:430-1223 | the same for every life of operations, starts and clears: repairable throughout, each event one step of the searchable contents; consistent stays consistent and equals the life of the simple map |
| `IndexSearchable.CommittedSearch` | src/index.rs:756-943 | in a repairable index a full commit changes the searchable text and the fingerprint of its path alone |
| `IndexSearchable.LossExactly` | src/index.rs:800-825 | an operation loses a searchable text against its purpose exactly when it is a metadata-only refresh of a path without a cache row |
| `IndexSearchable.AllRunsAreIdealExactly` | src/index.rs:800-825 | no run loses a searchable text if and only if every path with text has a cache row |
| `IndexSearchable.CachedRunsIdeally` | src/index.rs:756-1115 | a run from such an index loses nothing and ends in one |
| `IndexSearchable.CachedLivesIdeally` | src/index.rs:756-1213 | so does a life with restarts and clears |
| `IndexSearchable.StartedSearch` | src/index.rs:1117-1213 | a start from any repairable index loses no searchable text, brings back only texts of cached paths, and adds fingerprints for mapped files that are there |
| `IndexSearchable.StartedConsistent` | src/index.rs:1117-1213 | a start leaves the simple map of a consistent index as it is, whether it migrates or not |
| `IndexCompaction.SelectCandidates` | src/index.rs:453-479 | the first eligible paths after the cursor in path order |
| `IndexCompaction.NextCandidate` | src/index.rs:487-524 | one scanned row: oversized, different or emptied, with the trigger's condition false |
| `IndexCompaction.ExtentOf` | src/index.rs:453-524 | where the scan stops in the selected candidates is the extent of the batch |
| `IndexCompaction.TallyIsExact` | src/index.rs:487-524 | the reported numbers are those of the read rows that are too large, equal and different |
| `IndexCompaction.BatchIsInvisible` | src/index.rs:398-410 | a batch changes no query for any path and version and no entry of the map |
| `IndexCompaction.ScannedUpToCursor` | src/index.rs:453-533 | the scanned paths are exactly the eligible ones up to the new cursor |
| `IndexCompaction.BatchSettles` | src/index.rs:430-545 | what the cursor passed stays settled, and completion means that nothing is left |
| `IndexCompaction.CommittedKeepsSettled` | src/index.rs:756-943 | a replace between two batches keeps the passed part settled |
| `IndexCompaction.RefreshKeepsSettled` | src/index.rs:800-825 | so does a metadata-only refresh |
| `IndexMigration.MigrationLinks` | src/index.rs:1117-1166 | the two migration statements build the bijection from any full-text contents, keeping the highest rowid per path |
| `IndexMigration.BackfillOne` | src/index.rs:1189-1205 | inserting a cache row drops the mapping by trigger, and putting it back violates nothing |
| `IndexMigration.BackfillKeeps` | src/index.rs:1168-1213 | backfilling keeps every mapping and cached body and makes the index consistent when the files exist |
| `IndexMigration.LegacyStepHonest` | src/index.rs:380-425 | one step of an older release leaves a set marker truthful |
| `IndexMigration.RollbackIsSafe` | src/index.rs:380-425 | after any run of an older release, rowids reused or not, the marker is cleared or the row map is right |
| `IndexMigration.RollbackThenOpen` | src/index.rs:1117-1166 | the next start then migrates or finds a consistent index |
| `IndexMigration.RollbackNeedsEqualPaths` | src/index.rs:350-410 | the map survives every rollback if and only if cache and row map have the same paths |
| `IndexRuns.QueuedPathLeavesWithItsDocument` | src/index.rs:809-1114 | a queued path leaves only in the step that stores its document, removes it or acknowledges it; a restart and a clear keep it queued |
| `IndexRuns.QueuedExactly` | src/index.rs:619-663 | in every life, with restarts, a path is queued exactly when its last queue event was an accepted deferral and not an acknowledgement, an accepted removal or a commit |
| `IndexRuns.OverflowExactly` | src/index.rs:641-672 | the overflow flag is decided by the last refused deferral, write of the flag or clear |
| `IndexRuns.RecoveryExactly` | src/index.rs:571-672 | a recovery scan is asked for exactly when a deferral was refused or the overflow flag written since the last completed full rebuild or clear |
| `IndexRuns.KnownEmptyExactly` | src/index.rs:826-1115 | a version is known to have no text exactly when that was recorded and neither another version of the path found empty nor this one stored since |
| `IndexRuns.QueueIsBounded` | src/index.rs:619-653 | the queue never exceeds 65536 in any life of a repairable index, with restarts |
| `IndexRuns.RefusalPersists` | src/index.rs:571-653 | after a refused deferral the recovery flag stays over every event but a completed full rebuild and a clear |
| `IndexRuns.FailuresAreTheCappedSum` | src/index.rs:674-730 | in every life, with restarts, the failures of a version are the sum, capped at 4, of its reports since it was last committed or another version of its path reported |
| `IndexRuns.CountsUntilCommittedExactly` | src/index.rs:712-714 | they are the sum since the last commit, after every step, if and only if no other version reports while failures are recorded |
| `IndexRuns.RestoredFileStartsAgain` | src/index.rs:712-714 | a concrete run in which three attempts without a commit count as one |
| `IndexRuns.RefreshKeepsLinkExactly` | src/index.rs:800-825 | a metadata-only refresh keeps the bijection if and only if the path has a cache row |
| `IndexRuns.LostMappingSurvivesOpen` | src/index.rs:1190-1193 | a concrete index whose mapping a refresh loses; once any other document is committed the next start does not migrate and leaves the text out of reach, whichever files exist |
| `IndexedSearch.RangeIsRoot` | src/index.rs:1291-1295 | the statements select exactly the paths under the root |
| `IndexedSearch.NameQueryIsExact` | src/index.rs:1314-1320 | the statement of a name selects exactly the paths under the root with this last component |
| `IndexedSearch.ExactBasenamesLoseNothing` | src/index.rs:3638-3658 | an allowed path under the root ends in one of the exact names |
| `IndexedSearch.ExactBasenamesIsExact` | src/index.rs:3638-3658 | one to sixteen globs with literal last components are looked up by these |
| `IndexedSearch.LastComponentIsExact` | src/index.rs:3650 | the last component is what stands behind the last separator |
| `IndexedSearch.StemIsExact` | src/index.rs:1290-1292 | the stem is the root without the separators at its end |
| `IndexedSearch.PrefilterLosesNothing` | src/index.rs:1308-1324 | the basename prefilter is complete for every matcher that respects literal names |
| `IndexedSearch.VisitDocument` | src/index.rs:2421-2470 | appends the document's hits in order and stops exactly at the limit |
| `IndexedSearch.VisitRow` | src/index.rs:1350-1372 | a row is skipped, refused by a budget or visited, and each document is visited once |
| `IndexedSearch.VisitStatements` | src/index.rs:1345-1374 | all rows of all statements are covered unless the limit or a budget stopped the reader, and only such rows are visited |
| `IndexedSearch.SearchTextHits` | src/index.rs:2352-2479 | every hit is a matching line or path of an allowed document that a statement selects, no line twice, at most the limit; without truncation the answer is the scan of exactly the selected allowed documents, complete with exact basenames or when MATCH and LIKE are; an error only when a named limit is really exceeded |
| `IndexedSearch.ScanReportsNoLineTwice` | src/index.rs:2421-2470 | the simple scan reports no path and line twice |
| `IndexedSearch.DocumentHitIsReal` | src/index.rs:2429-2468 | a hit shows a matching line with exactly its context, or the path of a document without one |
| `IndexedSearch.HitAtShowsLine` | src/index.rs:2436-2447 | the text of a hit is its line, and its context exactly the lines within the asked distance, with their numbers, in order |
| `IndexedSearch.RefusalIsJustified` | src/index.rs:1351-1367 | a refused row means that the allowed documents exceed 20000, 64 MiB or the clock readings available |
| `IndexedSearch.CoveredIsWhole` | src/index.rs:1325-1374 | a reader that was not stopped has visited exactly the allowed documents that a statement selects |
| `IndexedSearch.AnswerIsComplete` | src/index.rs:1308-1374 | such an answer has every matching line with exact basenames or a complete MATCH, and every matching path with exact basenames or when LIKE selects the allowed ones |
| `SearchLaws.LineInBody` | src/index.rs:2421-2440 | what a folded line contains, the folded body contains, for every fold that keeps line ends apart |
| `SearchLaws.MatchIsCompleteExactly` | src/index.rs:2363-2365 | a MATCH that holds for every body containing the query and for none with a query below three characters returns every body with a matching line if and only if the query has three characters |
| `SearchLaws.AnswersHaveAllLinesExactly` | src/index.rs:2363-2479 | all answers over all consistent indexes have every matching line if and only if the globs name files, the query has three characters or LIKE selects every allowed path |
| `SearchLaws.AnswersHaveAllPathsExactly` | src/index.rs:1308-1374 | they have every matching path if and only if the globs name files or LIKE selects every allowed path that matches |
| `SearchLaws.ThreeByteQueryLosesLine` | src/index.rs:2363-2365 | a query of three bytes and one character passes the guard; of a document it names and one that contains it every answer has only the first |
| `SearchLaws.LikeIsCompleteExactly` | src/index.rs:1296-1340 | for every fold, LIKE selects every matching path if and only if every path that matches, and of which no shorter part does, contains the query up to ASCII case |
| `SearchLaws.LikeIsCompleteWhenCaseSensitive` | src/index.rs:1296-1340 | a case-sensitive search loses no path |
| `SearchLaws.UmlautPathIsLost` | src/index.rs:1296-1340 | a concrete query and a matching path that LIKE does not select |
| `SearchLaws.DottedCapitalIsLost` | src/index.rs:2403-2458 | a concrete query without variants but those of ASCII case, and a path that matches after lower-casing and that LIKE does not select |
| `BrowserReceipts.BrowserTaskClient.Admit` | src/gptadmin.rs:201-218 | receipts of an hour are forgotten; a call resumes exactly the task of its living receipt, and only an expected one; it submits exactly with no living receipt, no expected task and fewer than 4096 |
| `BrowserReceipts.BrowserTaskClient.Record` | src/gptadmin.rs:264-272 | a job id is written onto a receipt that is still there, which keeps its age; otherwise nothing changes |
| `BrowserReceipts.AdmissionIsBounded` | src/gptadmin.rs:203-214 | an admission keeps at most 4096 receipts |
| `BrowserReceipts.StepKeepsInv` | src/gptadmin.rs:201-274 | every event keeps the protocol invariant |
| `BrowserReceipts.AdmissionsNeverOverlap` | src/gptadmin.rs:201-274 | in every run two admissions of one id are 3600 s apart, each with at most two POSTs, the second after a refusal without effect |
| `BrowserReceipts.AtMostOneSubmission` | src/gptadmin.rs:201-274 | with deadlines within the receipt life all POSTs of a live receipt come from one caller |
| `BrowserReceipts.LongDeadlineAllowsTwoSubmissions` | src/gptadmin.rs:233-246 | a longer deadline allows two callers to submit for one id |
| `BrowserReceipts.ContinuationNeverSubmits` | src/gptadmin.rs:206-209 | a call with an expected task id admits and sends nothing |
| `BrowserReceipts.OnlySendAddsPosts` | src/gptadmin.rs:230-246 | only an admitted caller adds a POST, one at a time |
| `BrowserCalls.StepRemembers` | src/gptadmin.rs:201-272 | after every event the receipts are what the log of decisions, replies and writes says |
| `BrowserCalls.CallIsTold` | src/gptadmin.rs:201-218 | a call resumes the task last written for the living submission of its id, is refused while none was written, and submits without one, below 4096 living ids |
| `BrowserCalls.EveryCallIsTold` | src/gptadmin.rs:201-272 | so in every interleaving, and every written job id is the valid task of a reply to the caller that wrote it |
| `BrowserCalls.ResumedTasksAreOwnExactly` | src/gptadmin.rs:201-272 | over every run, each call at any point resumes only the task of the caller whose submission lives, if and only if each write to a living receipt is by the caller whose admission created it |
| `BrowserCalls.PromptWritesResumeOwn` | src/gptadmin.rs:201-272 | so in every run in which job ids are written within the hour |
| `BrowserCalls.LateWriteChangesTask` | src/gptadmin.rs:264-272 | a concrete run in which a later write replaces the task of the next submission |
| `EventFraming.FirstEventEnds` | src/gptadmin.rs:108-110 | the first event ends at the earliest terminator of either kind |
| `EventFraming.EndsAtIsExact` | src/gptadmin.rs:108-110 | a terminator is LF LF or CR LF CR LF, in bytes |
| `EventFraming.SplitIsSplit` | src/gptadmin.rs:103-111 | the split gives events with one terminator at their end and an unfinished rest, and loses no byte |
| `EventFraming.SplitIsUnique` | src/gptadmin.rs:103-111 | there is only one such split |
| `EventFraming.SplitContinues` | src/gptadmin.rs:103-111 | draining and continuing with the rest splits like reading everything at once |
| `EventFraming.Drain` | src/gptadmin.rs:107-111 | the drained events and the buffer left are a split of the buffer |
| `EventFraming.ReadEvents` | src/gptadmin.rs:100-111 | for every chunking within the bound the events are those of the whole stream; refused exactly when a chunk does not fit |
| `SearchMerge.DedupIsExact` | src/jobs.rs:604-616 | the admission rule keeps one hit per received key |
| `SearchMerge.AdmitStep` | src/jobs.rs:609-614 | one hit keeps: unique keys, the limit, arrival order, and no unflagged loss |
| `SearchMerge.MergeKeeps` | src/jobs.rs:592-618 | so does a whole answer |
| `SearchMerge.DropKeeps` | src/jobs.rs:682-683 | dropping the last result keeps everything but the first distinct hits, and sets the flag |
| `SearchMerge.FirstHitsExactly` | src/jobs.rs:592-685 | the results are the first distinct hits received if and only if nothing was dropped: a dropped hit never comes back |
| `SearchMerge.PageExtendsChain` | src/jobs.rs:510-520 | a page repeats nothing its chain delivered, in spite of drops |
| `SearchMerge.ChainSurvivesAdmission` | src/jobs.rs:604-616 | hits admitted later are new to every chain |
| `SearchMerge.PageContinuesExactly` | src/jobs.rs:510-520 | a page continues the admitted hits without a gap if and only if the cursor stands at the end of the delivered hits still held and none of the next ones was dropped |
| `SearchMerge.ChainEndsExactly` | src/jobs.rs:510-533 | a chain that ends delivered every admitted hit if and only if that holds for all that was left |
| `SearchJobs.SearchJob.constructor` | src/jobs.rs:171-198 | a new job waits for all its targets |
| `SearchJobs.SearchJob.Restored` | src/jobs.rs:478-493 | a restart with pending hosts is a lost job; exactly these are marked failed and no other status changes; results, cursors and the chains without a missing hit go on |
| `SearchJobs.SearchJob.MergeResult` | src/jobs.rs:592-618 | the hits added are exactly those that the admission rule admits, in order; the truncation flag is one-way |
| `SearchJobs.SearchJob.Persist` | src/jobs.rs:660-685 | drops the fewest tail results that make the record fit, flags it, and writes a recoverable record; after a success the store holds it if and only if it and the artifacts after it in order of age fit the store |
| `SearchJobs.SearchJob.CompleteHost` | src/jobs.rs:327-345 | the locked completion step: exactly the admitted hits are added, those cut off by persisting are accounted for, the host's reports are appended and every status stays the last report |
| `SearchJobs.CompletionOf` | src/jobs.rs:327-345 | the host alone leaves the pending ones, or all do after a durability error; the truncation flag is one-way |
| `SearchJobs.SavedExactly` | src/jobs.rs:336-340 | a record that cannot be kept ends the job, one that can loses at most results, flagged |
| `SearchJobs.SearchJob.InsertCursor` | src/jobs.rs:524-531 | the smallest handles go, only down to 256; the others keep their positions |
| `SearchJobs.SearchJob.Poll` | src/jobs.rs:470-590 | an unknown cursor is refused without effect; otherwise the page, the new cursor and the cursors kept are exactly determined and the page continues its chain; running, lost, failed and complete each exactly when the record and the reported statuses say so; complete means that every target's task ended |
| `SearchJobs.StateIsExact` | src/jobs.rs:540-552 | failed exactly when the record cannot be kept or, with nothing pending and not lost, after a durability error or when every reported host failed |
| `SearchJobs.TurnedIsExact` | src/jobs.rs:498-533 | the page is the 1 to 64 results from the cursor's position on, 32 by default, and a cursor comes at its end while the job runs or results are left |
| `SearchJobs.AllReports` | src/jobs.rs:592-603 | the status of a host is the last one reported |
| `SearchJobs.PageIsContinued` | src/jobs.rs:510-520 | a page that starts at its cursor has the laws of its chain, whatever was dropped |
| `SearchJobs.RestoredMerge` | src/jobs.rs:781-802 | every written record satisfies the job invariant again when loaded |
| `SearchReaders.TrackPage` | src/jobs.rs:510-533 | one page more: the joined pages stay a prefix of the admitted hits exactly while every page was steady |
| `SearchReaders.Interfere` | src/jobs.rs:327-590 | any completions and polls of other readers between two polls forget no delivery, and evict no cursor while at most 256 handles exist |
| `SearchReaders.FollowCursors` | src/jobs.rs:470-618 | for every interleaving of host completions and polls of all readers each page is the one of its logged moment and starts where the last one ended; the joined pages are a prefix of the admitted hits, at the end all of them, if and only if the logged moments are steady; without a drop they are the first distinct hits; no refusal while at most 256 handles exist |
| `SearchReaders.SkippedHitRun` | src/jobs.rs:470-685 | a concrete run of completions, polls and writes: a read hit is dropped, another takes its place, and the chain ends complete without it |
| `JobStore.Prune` | src/jobs.rs:628-658 | expired jobs go, then the oldest beyond 256, exactly as many as needed |
| `JobStore.EnforceStoreBudget` | src/jobs.rs:737-761 | keeps the longest run of newest artifacts within both limits |
| `JobStore.Commit` | src/jobs.rs:660-685 | after the rename and the budget call the new artifact is kept if and only if it and the artifacts after it by creation time and path fit both limits |
| `JobStore.SurvivesExactly` | src/jobs.rs:737-761 | in the sorted listing that condition decides whether the new artifact is among the removed ones |
| `JobStore.TooLargeDoesNotSurvive` | src/jobs.rs:660-761 | a record larger than the store does not survive its own write |
| `ResultCache.FreshOfOrdered` | src/compute.rs:42-50 | with ordered times the expired rows are exactly a prefix |
| `ResultCache.EvictedFits` | src/compute.rs:71-74 | eviction drops the fewest oldest rows that make room, without popping an empty queue |
| `ResultCache.InsertedKeeps` | src/compute.rs:60-78 | an insertion keeps distinct keys, ordered times, 64 rows and 64 MiB |
| `ResultCache.EvictedExactly` | src/compute.rs:71-74 | a row is evicted if and only if it and all newer ones leave no room for the new one |
| `ResultCache.InsertedExactly` | src/compute.rs:60-78 | behind an insertion stand the unexpired rows of other keys from some point on; such a row is lost exactly when it and all newer ones do not fit beside the new one |
| `ResultCache.LookupIsExact` | src/compute.rs:52-58 | a lookup finds the unexpired row of its key, if there is one |
| `ResultCache.InsertThenLookup` | src/compute.rs:52-78 | the inserted result is found, and other keys keep their result or lose it |
| `ResultCache.RetainedResults.Prune` | src/compute.rs:42-50 | popping the front removes exactly the expired rows and keeps the byte count |
| `ResultCache.RetainedResults.Get` | src/compute.rs:52-58 | a read finds the unexpired result of its key and never extends a life |
| `ResultCache.RetainedResults.Insert` | src/compute.rs:60-78 | the new row stands last behind the newest rows that fit beside it, and a too large result leaves the unexpired rows alone; the byte count is their sum |
| `ComputePermit.StepKeepsOnePermit` | src/compute.rs:530-722 | every step keeps one permit, free or held by exactly one job |
| `ComputePermit.OneNativeInference` | src/compute.rs:605-722 | in every reachable state at most one native job exists, and while it does no request is admitted |
| `ComputePermit.RetainedAnswer` | src/compute.rs:548-566 | a request for a retained key of its class is answered without inference |
| `ComputePermit.OtherClassIsRefused` | src/compute.rs:555-561 | a request for another task class than the retained one gets no answer and no inference |
| `ComputePermit.MissGoesOn` | src/compute.rs:548-566 | without an unexpired result the request goes on |
| `ComputePermit.WaiterGetsItsResult` | src/compute.rs:605-722 | the result of native work goes to its own waiter and frees the permit, waiter or not |
| `ComputePermit.AnswersStay` | src/compute.rs:566-610 | an answer is never taken back or changed, and only an ended job has one |
| `ComputePermit.LeavingIsExact` | src/compute.rs:566-610 | a waiter that leaves frees the permit at once between decision and start, and preparation and native work keep it |
| `ComputePermit.NoPermitWithoutWaiter` | src/compute.rs:530-610 | in every run a permit between decision and start has a waiter |
| `ComputePermit.RowIsLostExactly` | src/compute.rs:60-78 | a retained result is lost before it expires only to a newer one of its key or for want of room |
| `ComputePermit.NoSecondInference` | src/compute.rs:530-722 | while the result is retained no run starts the key again |
| `ComputePermit.SuccessIsRetained` | src/compute.rs:80-90 | a success leaves its result retained and the permit free, waiter or not |
| `ReadText.LinesAreStripped` | src/backend.rs:1259-1264 | the lines of the file are its raw lines without LF and one CR |
| `ReadText.LinesAreExact` | src/backend.rs:1259-1264 | the lines cut the file into pieces that end in LF or CR LF, the last one possibly not; nothing is lost or added |
| `ReadText.NumberedIsRange` | src/backend.rs:1216-1281 | the chunk has the lines from max(start, 1) to max(end, start) or the end, with their numbers |
| `ReadText.OffsetIsBytes` | src/backend.rs:1246-1254 | the bytes counted are those of the lines read |
| `Bytes.LowerIsAscii` | src/index.rs:2491 | A to Z become a to z, and every other byte stays |
| `ReadText.CutLine` | src/backend.rs:1231-1249 | a line read from the cut stream is the file's own or ends at the cut |
| `ReadText.StepOfReader` | src/backend.rs:1238-1257 | one step reads the next line or proves that the range exceeds the limit |
| `ReadText.ReadText` | src/backend.rs:1201-1281 | success exactly when the file is small enough, the needed bytes fit and are valid; then the lines are those of the whole file |
| `ReadText.ReadRange` | src/backend.rs:1231-1270 | the loop takes at most one byte more than the budget and selects exactly the requested lines |
| `ActivityGuard.IsolatedBucketExactly` | src/index.rs:2893-2911 | an isolated root is the bucket of exactly the paths whose longest isolated ancestor it is |
| `ActivityGuard.OtherBucketsAreExact` | src/index.rs:2893-2911 | any other path belongs to the directory directly under its root |
| `ActivityGuard.BucketsAreIndependent` | src/index.rs:2698-2749 | after any batch each bucket holds the counts of its own events alone |
| `ActivityGuard.CountersAreOfTheWindow` | src/index.rs:2711-2722 | the counters are the sums over the bucket's events since the one that opened the current window |
| `ActivityGuard.HotDeadlineIsExact` | src/index.rs:2723-2727 | the hot deadline is one cooldown behind the last event that reached a threshold |
| `ActivityGuard.IsolationHolds` | src/index.rs:2698-2749 | a batch without a path of an isolated root leaves it untouched |
| `ActivityGuard.ActivityTable.CountBatch` | src/index.rs:2698-2749 | the counting loop moves the table event by event |
| `ActivityGuard.HotSurvivesRestart` | src/index.rs:1431-1614 | save and load neither drop nor shorten a bucket that is still hot |
| `ActivityGuard.RestartInventsNothing` | src/index.rs:1438-1458 | a bucket after load was there before with the same counters |
| `ActivityGuard.RestartKeepsExactly` | src/index.rs:1431-1614 | a bucket survives exactly when it is isolated, or hot or in its window at both ends |
| `ActivityGuard.RootsStartExactly` | src/index.rs:1540-1590 | a configured root starts cool after a quiet time and otherwise hot at its thresholds |
| `ActivityGuard.HeatIsExact` | src/index.rs:2913-2930 | a bucket with counters is hot until its own deadline, one without when it is isolated or a related one is hot |
| `ActivityGuard.IsolatedHeatIsItsOwn` | src/index.rs:2913-2930 | an isolated root never borrows the heat of another bucket |
| `Trigrams.BuildPostings` | src/index.rs:3560-3564 | every gram of every walked document is posted, and nothing else |
| `Trigrams.Candidates` | src/index.rs:2481-2517 | the answer is the paths of the rows that MATCH returns when there is a persistent index and otherwise the intersection of the postings, under the root; None in exactly the cases that send the caller to a live scan |
| `Trigrams.GramsOfOccurrence` | src/index.rs:3672-3677 | the grams of a contained query are grams of the document |
| `Trigrams.SearchCandidates` | src/index.rs:2507-2517 | without a persistent index every walked document under the root that contains the query is a candidate, or the caller scans live |
| `Trigrams.IndexCandidatesAreSoundExactly` | src/index.rs:2494-2505 | with one, every indexed document under the root that contains the query is a candidate if and only if the query has three characters |
| `Trigrams.EuroHasNoCandidates` | src/index.rs:2494-2505 | a concrete query with a trigram for which the persistent index answers that no file contains it |
| `Utf8.CutIsWellFormedAtBoundaries` | src/console.rs:808-817 | a cut of a well-formed text is well-formed exactly at a character boundary |
| `Utf8.CharactersAreScalars` | src/console.rs:808-817 | a text starts with a character exactly when it starts with the bytes of a Unicode scalar value |
| `Utf8.TruncateUtf8` | src/console.rs:808-817 | the loop finds the highest boundary within the limit |
| `Utf8.TruncatedIsLongest` | src/console.rs:808-817 | the result is the longest well-formed prefix within the limit, at most three bytes short of it |
| `PreviewContext.DistinctLines` | src/console.rs:742-743 | sorting and removing duplicates keeps the first text given for each line number |
| `PreviewContext.FirstWithIsExact` | src/console.rs:743 | the text kept for a number is that of the first line with it |
| `PreviewContext.BudgetKeepsAPrefix` | src/console.rs:753-766 | the byte budget keeps a prefix of the ranked lines and reports every loss |
| `PreviewContext.BudgetKeepsMost` | src/console.rs:753-766 | each kept line has what is left of the budget, and a line is dropped only when nothing is left |
| `PreviewContext.BoundContext` | src/console.rs:722-768 | the loop computes the bounded context lines and the flag |
| `PreviewContext.ResultIsBounded` | src/console.rs:742-768 | at most 200 lines and 64 KiB, in order, each a character-aligned prefix of a given text |
| `PreviewContext.NearestAreKept` | src/console.rs:744-752 | a kept line is the match itself or no farther from it than any dropped one, and of two at one distance the one before the match |
| `PreviewContext.MostAreKept` | src/console.rs:751-766 | a line is dropped only when 200 are kept or they fill 64 KiB |
| `PreviewContext.MatchLineIsKept` | src/console.rs:744-768 | the match line is kept, cut only if it alone exceeds 64 KiB |
| `PreviewContext.FlagIsExact` | src/console.rs:751-766 | match_truncated is set if and only if some line number lost text |
| `PreviewContext.BudgetLosesExactly` | src/console.rs:753-766 | the byte budget loses text if and only if the lines exceed it or all but the last use it up |
| `PreviewContext.FlagMeansTooMuch` | src/console.rs:742-766 | the flag is set if and only if the ranked lines exceed the limits |
| `PreviewContext.NothingLostExactly` | src/console.rs:742-766 | every gathered line is kept if and only if the ranked lines fit the limits and no two lines of one number differ |
| `PreviewContext.DuplicateIsDroppedUnflagged` | src/console.rs:742-743 | a concrete context that loses a text with the flag clear |
| `PreviewContext.GatheredFirsts` | src/console.rs:727-741 | the hit's own text stands for the match line exactly when the context has none |
| `PreviewContext.BoundedPreview` | src/console.rs:819-871 | the nested loops show the specified lines and flag |
| `PreviewContext.PreviewIsBounded` | src/console.rs:819-854 | a preview shows a prefix of the lines within both limits, the last line possibly cut |
| `PreviewContext.PreviewIsExact` | src/console.rs:831-854 | it is flagged if and only if the lines do not fit, and shows them all otherwise |
| `PreviewContext.PreviewShowsMost` | src/console.rs:831-854 | a cut preview shows 200 lines, or whole lines up to one that does not fit and what fits of that |
| `PreviewContext.FlattenedIsExact` | src/console.rs:825-830 | the lines are those of all chunks in order |
| `PreviewContext.MatchViewIsVerbatim` | src/console.rs:508-512 | the match view shows the lines kept with a handle unchanged |
| `PreviewHandles.IdsDiffer` | src/console.rs:800-806 | ids with different counters differ while the clock keeps its width |
| `PreviewHandles.SmallerIdsAreOlder` | src/console.rs:685-690 | removing the smallest id first removes the oldest handles first |
| `PreviewHandles.IssuedHolds` | src/console.rs:691-787 | no handle of a response is overwritten by a later one |
| `PreviewHandles.ResponseIsHeld` | src/console.rs:691-787 | all handles of a response are in the map together and the count is exact |
| `PreviewHandles.EligibleAreCounted` | src/console.rs:666-682 | the counted entries are those that can have a handle |
| `PreviewHandles.Previews.Take` | src/console.rs:790-798 | a handle is found while it is kept and younger than 300 s |
| `PreviewHandles.Previews.MakeRoom` | src/console.rs:684-690 | the smallest ids go, and only as many as needed |
| `PreviewHandles.Previews.IssueHandles` | src/console.rs:660-788 | at most 512 handles; the first 512 entries that can have one get one that is kept and leads to the entry's own host, path and line with its lines; the others are marked, other entries are unchanged |
| `Ratings.PrunedKeeps` | src/compute_ratings.rs:72-83 | pruning at any later time keeps bounds, unique keys and order |
| `Ratings.PruneSamples` | src/compute_ratings.rs:73-80 | popping the front keeps exactly the recent samples |
| `Ratings.RecentIsExact` | src/compute_ratings.rs:72-83 | the recent samples are the suffix younger than half an hour |
| `Ratings.RecordedKeeps` | src/compute_ratings.rs:29-70 | a record keeps at most 16 classes of 1 to 16 samples, changes its class alone, and drops the front class only for a seventeenth |
| `Ratings.TheLeastRecentGivesWay` | src/compute_ratings.rs:66-69 | the dropped class has the oldest latest observation |
| `Ratings.CountingIsNonEmpty` | src/compute_ratings.rs:89-104 | the median index and the last sample always exist |
| `Ratings.MedianIsInTheMiddle` | src/compute_ratings.rs:90-97 | the median is an observed time in the middle of the counting ones |
| `Ratings.RatingIsExact` | src/compute_ratings.rs:85-111 | a rating gives the number of counting samples, their median and its inverse, and the times of the last counting sample |
| `Ratings.ColdSampleKeepsRatingExactly` | src/compute_ratings.rs:57-65 | a cold sample keeps the rating if and only if it pushes no warm sample out of a full window |
| `Ratings.ColdSampleCanHalveTheScore` | src/compute_ratings.rs:57-65 | a concrete window in which a cold sample halves the score |
| `Ratings.Ratings.Record` | src/compute_ratings.rs:29-70 | the object records exactly the admissible observations |
| `Ratings.Ratings.Snapshot` | src/compute_ratings.rs:85-111 | one rating for every class of the backend with a recent sample |

## Left out

- SQLite, FTS5 and tokenizers: MATCH, LIKE and globs are abstract predicates; completeness of the search assumes that a glob with a literal last component matches only that name, that the trigram MATCH returns what contains the query and nothing for an empty text or a query below three characters, that LIKE folds ASCII case alone and, for lines only, that case folding keeps line ends apart.
- I/O, serialization and foreign calls: JSON, HTTP, file walking, metadata reading, OCR and document extraction; their results are parameters and stored records decode to what was encoded.
- `PersistentIndexStore.PersistentIndex.ReplaceDocument`: sizes are unbounded and modification times are numbers; the cast of sizes to a signed column and the text form of times are one-to-one.
- `PersistentIndexStore.PersistentIndex.Open`: creating the schema and choosing the database file; the upgrade statements are those of an existing database.
- `PersistentIndexStore.PersistentIndex.CompactDuplicateCacheBodies`: a document whose path is the empty text is never scanned, because the scan starts above it; the settled claim excludes it as the code does.
- `IndexedSearch.SearchTextHits`: the deadline is a number of clock readings; paths are their lossy text; whether the index is ready is one input.
- `BrowserReceipts.AtMostOneSubmission`: the callers' answers after the job id is known, reconnecting, and the callback that stores the job id.
- `EventFraming.ReadEvents`: what is done with the data lines of a drained event.
- `SearchJobs.SearchJob.Poll`: the snapshot of a whole job, host-status normalisation of old records and the echoed request fields.
- `SearchReaders.FollowCursors`: random handles are new ones; the job is not removed by age or restarted between the polls.
- `SearchJobs.SearchJob.Restored`: the age limit of a loaded record, telemetry and the wake-up channel; the original targets and finished hosts are known to the proof only, and the log of pages begins anew.
- `SearchJobs.SearchJob.Persist`: encoding, temporary file and rename are one success or failure, and so are the listing and the removals of the budget call; the directory before the write is part of the parameter.
- `ComputePermit.OneNativeInference`: the checks on load and GPU between lookup and start are one rejection; a queued job that finds its deadline passed counts as a started one that failed.
- `ActivityGuard.ActivityTable.CountBatch`: the debounce delay and the two glob flags that the loop sets beside the counters; events outside every root are filtered before.
- `ActivityGuard.HotSurvivesRestart`: unreadable or foreign guard files, which hold every root for one cooldown.
- `PreviewHandles.Previews.IssueHandles`: all handles of one response carry one creation time; clock readings have eleven hexadecimal digits (2004 to 2527).
- `PreviewContext.BoundedPreview`: the joined text and the echoed host, path and start line of the answer.
- `Ratings.Ratings.Record`: times and durations are real numbers, so rounding of doubles is not modelled; a key's length is counted in characters.
- Relay retries, registry probing, topology, deployment, configuration defaults, the web pages and access checks.
