# Model of the pimio library core

pimio keeps a photo library in a durable store (records and originals under LORE revisions), fills it
by scanning directories, shows it in a grid with thumbnails, follows changes on disk, runs background
jobs, keeps a SQLite projection of the records, reads metadata out of media files, and backs libraries
up into archives. This project models the protocols and codecs behind that and proves what they promise.

| file | what it models |
|---|---|
| `Media.dfy`, `BigEndian.dfy`, `Placement.dfy`, `IdOrder.dfy` | records, bytes, numbers as bytes, id order |
| `RecordNames.dfy` | the file name of a record |
| `StagingLaws.dfy`, `LoreStore.dfy`, `CommitLaws.dfy`, `StoreRuns.dfy` | staging, the commit protocol under faults and crashes, histories |
| `MetadataEdits.dfy` | editing metadata: stage, cancel, save |
| `ScanLaws.dfy`, `Scanner.dfy`, `ScanStaging.dfy` | the incremental scan, its interruptions and its batches; what it stages in the durable store |
| `GridRows.dfy`, `Thumbnails.dfy`, `LibraryModel.dfy` | the browser's rows, thumbnail retention, provider and requests |
| `Jobs.dfy`, `JobQueue.dfy`, `JobDispatcher.dfy`, `Watch.dfy` | jobs, their queue and dispatcher, and the way from a file event to a job |
| `Projection.dfy` | the projection and its staleness |
| `ArchiveFormat.dfy`, `BackupArchive.dfy` | the backup archive |
| `BoxWalk.dfy`, `IsoBmff.dfy`, `IsoBmffWriter.dfy`, `BoxContents.dfy` | ISO base media files (section 4.2 of ISO/IEC 14496-12); what their headers mean |
| `TiffReader.dfy`, `ExifBuilder.dfy`, `ExifRoundTrip.dfy`, `ExifValues.dfy` | EXIF blocks (section 2 of TIFF 6.0; section 4.6 of CIPA DC-008); what their bytes mean |
| `JpegReader.dfy`, `JpegSegments.dfy` | the segments of JPEG files; what their bytes mean |

How the model is set up:

- Failures and crashes are a plan: `LoreDurableStore.plan` says of every disk or LORE operation, in
  order, whether it works, fails or ends the process; `JobQueue.fails` and `ProjectionDatabase.fails`
  do the same for SQL statements. All results hold for every plan unless they say
  `Healthy`, which speaks of the operations from then on, or `Working`.
- LORE is two facts: a revision commit is atomic, and a reset with purge makes the checkout the current
  revision. Commits of other processes may change the checkout, publish it or restore it before any
  question the projection asks (`Projection.DurableStore.changes`).
- Digests are an arbitrary function. Where two contents must be told apart the hypothesis is written
  out (`CollisionFree`, `TellsApart`).
- Worker start, worker end and delivery of a result are single steps; a worker that answers a cancelled
  request is not heard. Time is a parameter.
- Path keys, file-name suffixes, metadata readers, date and XMP parsers are arbitrary functions that the
  results quantify over.

Where the code does not meet a promise in general, the exact condition is proved, and a concrete case
shows the failure:

- A record removed and staged again without its original commits without an original, and so does one whose
  path is only a directory of other staged originals (`CommitLaws.OriginalsMatchExactlyWhen`;
  `StoreRuns.RestageARemovedRecord`, `StoreRuns.ADirectoryPassesForAnOriginal`). Below an original that is
  there nothing can be published (`StoreRuns.APathBelowAnOriginalIsRefused`).
- A scan does the first of these when the removal of a duplicate was staged but not committed and the file was
  renamed in the meantime; and a new media file whose name ends in `.part` makes the commit of its batch fail
  (`ScanStaging.ScanIsFitExactlyWhen`; `ScanStaging.AMovedRecordLosesItsOriginal`,
  `ScanStaging.APartialNameIsRefused`).
- When a record is staged beside its own tombstone, a commit whose final clear stops half-way leaves work
  that deletes the record again (`CommitLaws.ReplayIsHarmlessExactlyWhen`;
  `StoreRuns.HalfClearedTombstoneDeletesTheRecord`).
- A save that rewrites one original publishes what was changed outside in others
  (`MetadataEdits.SaveKeepsOriginalsMatchedExactlyWhen`; `MetadataEdits.SavePublishesAForeignChange`).
- Two record ids can share a file name (`RecordNames.CollisionsCharacterised`; `RecordNames.CollisionExample`).
- Moving or shrinking the window, or lowering the limit, can make the provider drop pictures of rows that
  stay ready; the conditions are in `LibraryModel.MediaLibraryModel.SetVisibleRange` and
  `SetRetainedThumbnailLimit` (`LibraryModel.ShrinkingTheWindowLosesPictures`).
- A window with more rows than may be retained, which takes a range given backwards and a low limit, never
  comes to rest while there are pictures for it (`LibraryModel.MediaLibraryModel.Settle` and `NeverSettle`;
  `LibraryModel.BackwardWindowNeverSettles`).
- A retry can put a second pending job beside its follow-up (`Jobs.RetryKeepsKeysApartExactlyWhen`;
  `JobQueue.RetryBesideItsFollowUp`).
- Jobs without a creation time are claimed first, not last (`Jobs.OrdersAgreeExactlyWhen`;
  `Jobs.TimelessJobOvertakes`).
- When the statement that books an outcome fails, or a claim fails after some rows were marked, rows stay
  running for nobody until the next start of the program (`JobDispatcher.JobDispatcher.Finish` and
  `TryDispatch`; `JobDispatcher.AFailedMarkStrands`, `JobDispatcher.AFailedClaimStrands`), and a change can be
  lost with them (`Watch.WatchService.Dispatch`; `Watch.AFailedClaimLosesAChange`).
- A batch of events in memory is lost with the process unless start-up queues a scan
  (`Watch.WatchService.Restart`; `Watch.ABatchInMemoryIsLost`).
- A rebuild that reads the checkout in the middle of a commit that fails leaves a projection that is wrong
  and not stale (`Projection.ProjectionDatabase.RebuildFrom`; `Projection.ReadingACommitInProgress`).
- An archive in which one name lies below another parses but cannot be extracted
  (`BackupArchive.ExtractArchive`; `BackupArchive.NestedNamesAreRefused`).
- A later EXIF block or XMP packet overrides an injected one (`JpegReader.InjectedIsReadExactlyWhen`;
  `JpegReader.LaterExifWins`).

A comment in `src/scan/src/scanner.cpp` (lines 424-425) calls old duplicates whose path was reconciled the only
records that are removed. The removal pass also removes the record of a file that is still found but is not
media any more; the model follows the code.

## Model

| member | source | states |
|---|---|---|
| `StoreRuns.CommitAndReopen` | src/lore/src/lore_durable_store_commit.cpp:136-449 | Commit, a crash or failure of any operation in it, and a new process: the committed tree is the old one or the whole cleaned staging area applied to the checkout; if it reopens, the checkout equals it; unpublished work is all still staged. |
| `StoreRuns.CommitTwice` | src/lore/src/lore_durable_store_commit.cpp:185-449 | Commit, crash anywhere, reopen, commit again: the tree is the staging area applied exactly once if either attempt reached the revision, unless a record was staged beside its own tombstone; a second attempt that meets no fault publishes whatever is acceptable. |
| `StoreRuns.CommitAgain` | src/lore/src/lore_durable_store_commit.cpp:136-449 | One more attempt after any number of others: acceptable work that was not published yet is published if nothing fails, published work changes nothing more, and nothing stays staged. |
| `StoreRuns.CommitAnyTimes` | src/lore/src/lore_durable_store_commit.cpp:136-449 | Any number of attempts, each in a process of its own and all of them made unless the store cannot be opened any more, publish the work at most once, and one attempt without faults is enough. |
| `StoreRuns.EveryRevisionIsSound` | src/lore/src/lore_durable_store_commit.cpp:167-329 | In every revision of every run each managed record has its original, hashing to its fingerprint, naming and single ownership hold, and no original lies below another. |
| `StoreRuns.CommitKeepsTreeSound` | src/lore/src/lore_durable_store_commit.cpp:167-348 | One accepted commit of fit staging takes a sound tree to a sound tree. |
| `StoreRuns.FitIsWorkable` | src/lore/src/lore_durable_store_commit.cpp:233-329 | Over a sound tree, a commit can finish whatever it accepts of fit staging. |
| `StoreRuns.CleaningKeepsFitness` | src/lore/src/lore_durable_store_commit.cpp:185-197 | Dropping orphaned staged originals takes away nothing that a staged record needs. |
| `StoreRuns.RestagingOverATombstoneLosesTheOriginal` | src/lore/src/lore_durable_store_commit.cpp:466-497 | A record staged without its original beside its own tombstone is accepted and commits a record without its original. |
| `StoreRuns.RestageARemovedRecord` | src/lore/src/lore_durable_store_commit.cpp:55-124 | A run of the store that adds a record with its original, removes it, stages it again and commits ends with a record without its original. |
| `StoreRuns.ADirectoryPassesForAnOriginal` | src/lore/src/lore_durable_store_commit.cpp:203-231 | A run of the store: a record staged without its original, where the staged original of another one needs a directory, is committed without an original. |
| `StoreRuns.APathBelowAnOriginalIsRefused` | src/lore/src/lore_durable_store_commit.cpp:273-278 | A run of the store: a commit that would publish an original below another one is refused, and nothing changes. |
| `StoreRuns.HalfClearedTombstoneDeletesTheRecord` | src/lore/src/lore_durable_store_commit.cpp:443-446 | A clear that stops between a record and its tombstone leaves work that deletes the record it had just committed. |
| `StoreRuns.AForeignChangeIsRefused` | src/lore/src/lore_durable_store_commit.cpp:290-300 | A run of the store: an original was changed outside and its record is staged with a new one: the commit is refused and the revision stays. |
| `LoreStore.LoreDurableStore.Commit` | src/lore/src/lore_durable_store_commit.cpp:136-449 | The whole commit: outcome and revision go together, from any checkout; nothing staged is lost before the final clear; unless the reset failed the store is as ready as before; no original is overwritten that somebody else changed; success means that every step but that clear worked, and a crash is the last step; and if nothing fails from here on, staging that is in order, and removes no directory, is committed exactly when everything in it is backed by matching bytes. |
| `LoreStore.LoreDurableStore.Publish` | src/lore/src/lore_durable_store_commit.cpp:233-410 | Changes the checkout and commits it as one revision, which takes every step to work, or leaves the revision alone and restores the checkout if the reset works. |
| `LoreStore.LoreDurableStore.Conclude` | src/lore/src/lore_durable_store_commit.cpp:412-448 | A failed flush keeps everything staged; otherwise the staging area is cleared. |
| `LoreStore.LoreDurableStore.Open` | src/lore/src/lore_durable_store.cpp:105-223 | A store that opens has a checkout equal to the committed revision. |
| `LoreStore.LoreDurableStore.Restore` | src/lore/src/lore_durable_store.cpp:49-83 | A reset with purge makes checkout and index the committed tree, or reports failure. |
| `LoreStore.LoreDurableStore.Stage` | src/lore/src/lore_durable_store_commit.cpp:55-70 | The staged record replaces an earlier one and leaves tombstones and originals alone. |
| `LoreStore.LoreDurableStore.StageOriginal` | src/lore/src/lore_durable_store_commit.cpp:72-124 | Only bytes that hash to the fingerprint stay staged, only together with their record, and only where no staged original needs a directory or is one on the way. |
| `LoreStore.LoreDurableStore.Remove` | src/lore/src/lore_durable_store_commit.cpp:466-497 | The staged record goes with the original it has if it is a managed one; the tombstone comes only if it could be written. |
| `LoreStore.LoreDurableStore.DiscardStaged` | src/lore/src/lore_durable_store_commit.cpp:451-464 | Empties the staging area, then restores the checkout. |
| `LoreStore.LoreDurableStore.ClearOrphans` | src/lore/src/lore_durable_store_commit.cpp:185-197 | Exactly the staged originals whose names end in .part, or that no staged managed record claims, are removed. |
| `LoreStore.LoreDurableStore.ValidateRecords` | src/lore/src/lore_durable_store_commit.cpp:203-231 | The verdict is valid exactly when every staged managed record has its original, or a directory in its place, and every in-place edit matches its record. |
| `LoreStore.LoreDurableStore.BuryTombstones` | src/lore/src/lore_durable_store_commit.cpp:233-260 | The checkout without the tombstoned records and their originals. |
| `LoreStore.LoreDurableStore.CollectDigests` | src/lore/src/lore_durable_store_commit.cpp:167-184 | The expected and previous digests by path, in closed form. |
| `LoreStore.LoreDurableStore.PublishAll` | src/lore/src/lore_durable_store_commit.cpp:262-308 | Publishes each claimed original, refusing bytes that do not match, targets whose bytes are neither the expected nor the previous ones, and targets that are directories or below files. |
| `LoreStore.LoreDurableStore.DropReplacedOriginals` | src/lore/src/lore_durable_store_commit.cpp:310-329 | The originals of re-pathed records are gone, nothing else. |
| `LoreStore.LoreDurableStore.CopyStagedRecords` | src/lore/src/lore_durable_store_commit.cpp:331-348 | Every staged record is in the checkout under its file name. |
| `LoreStore.LoreDurableStore.CommitRevision` | src/lore/src/lore_durable_store_commit.cpp:350-422 | The revision becomes the checkout, in one step, or stays. |
| `LoreStore.LoreDurableStore.PublishStep` | src/lore/src/lore_durable_store_commit.cpp:262-308 | Publishing one more original depends on its own target, and on nothing else where staged originals do not lie below one another. |
| `LoreStore.OriginalsUntouched` | src/lore/src/lore_durable_store_commit.cpp:219-231 | When no phase touched an original, the committed originals are those the staging area asks for, so skipping their staging is safe. |
| `StagingLaws.PartialExactlyWhen` | src/lore/src/lore_durable_store_commit.cpp:185-188 | A staged original is half-written exactly if its name ends in .part. |
| `StagingLaws.DirectoryExactlyWhen` | src/lore/src/lore_durable_store_commit.cpp:233-260 | A path is a directory exactly if some original lies behind it and a slash, or if it is empty. |
| `CommitLaws.OriginalsMatchExactlyWhen` | src/lore/src/lore_durable_store_commit.cpp:203-329 | After an accepted commit every record matches its original if and only if no managed record was staged, without its original, over its own tombstone or where only a directory of other staged originals is. |
| `CommitLaws.AppliedOriginalAt` | src/lore/src/lore_durable_store_commit.cpp:233-329 | Where each original of the new tree comes from: published, kept, buried or replaced. |
| `CommitLaws.PublishedMatches` | src/lore/src/lore_durable_store_commit.cpp:262-308 | A published original hashes to what its record says. |
| `CommitLaws.UntouchedOriginalStays` | src/lore/src/lore_durable_store_commit.cpp:233-329 | The original of a record that is neither tombstoned nor re-pathed stays where and what it is. |
| `CommitLaws.ClaimedPathsAreNotReplaced` | src/lore/src/lore_durable_store_commit.cpp:310-329 | Dropping replaced originals never deletes one that was just published. |
| `CommitLaws.StagedRecordMatches` | src/lore/src/lore_durable_store_commit.cpp:203-231 | A staged record that does not lose its original matches it in the new tree. |
| `CommitLaws.KeptRecordMatches` | src/lore/src/lore_durable_store_commit.cpp:233-329 | A record left alone still matches its original in the new tree. |
| `CommitLaws.OriginalIsLost` | src/lore/src/lore_durable_store_commit.cpp:233-260 | A record staged without its original over its tombstone, or in place of a directory, has none in the new tree. |
| `CommitLaws.NoDirectoryIsRemoved` | src/lore/src/lore_durable_store_commit.cpp:233-329 | Where every record has its original, what an accepted commit removes or replaces are files, never directories. |
| `CommitLaws.AppliedStaysNotNested` | src/lore/src/lore_durable_store_commit.cpp:262-308 | After an accepted commit, as before it, no original lies below another. |
| `CommitLaws.AppliedStaysWellFormed` | src/lore/src/lore_durable_store_commit.cpp:331-348 | Naming, usable paths and single ownership survive every commit. |
| `CommitLaws.ReplayChangesNothing` | src/lore/src/lore_durable_store_commit.cpp:424-448 | Applying staged work again, whole or what a half-finished clear left of it, changes nothing. |
| `CommitLaws.ReplayIsHarmlessExactlyWhen` | src/lore/src/lore_durable_store_commit.cpp:424-448 | Applying again whatever an interrupted clear left of accepted work changes nothing, whatever that is, if and only if no record was staged beside its own tombstone. |
| `CommitLaws.ReplayIsAccepted` | src/lore/src/lore_durable_store_commit.cpp:185-231 | The retry of work that was committed already is accepted. |
| `CommitLaws.NothingIsReplacedTwice` | src/lore/src/lore_durable_store_commit.cpp:310-329 | On the second application no original is replaced. |
| `CommitLaws.AcceptedExactlyWhen` | src/lore/src/lore_durable_store_commit.cpp:203-308 | What a commit accepts, in terms of the records and bytes: something is staged, every managed record has its original, staged or in place, with the bytes its fingerprint says, and every target is free or still holds the expected or the previous bytes. |
| `CommitLaws.ForeignOriginalsStay` | src/lore/src/lore_durable_store_commit.cpp:290-300 | Of the originals left after the tombstones, one that an accepted commit replaces by other bytes hashed to the digest of the committed record owning its path. |
| `RecordNames.CollisionsCharacterised` | src/lore/src/lore_store_helpers.cpp:42-51 | Two ids share a record file if and only if they are equal or one spells the encoding of the other. |
| `RecordNames.IdsWithoutThePrefixNeverCollide` | src/lore/src/lore_store_helpers.cpp:42-51 | Ids that do not start with the encoding prefix never share a file. |
| `RecordNames.CollisionExample` | src/lore/src/lore_store_helpers.cpp:42-51 | Two concrete ids that do share a file. |
| `RecordNames.HexIsInjective` | src/lore/src/lore_store_helpers.cpp:49-50 | The hexadecimal encoding tells all byte strings apart. |
| `RecordNames.SafeExactlyWhen` | src/lore/src/lore_store_helpers.cpp:42-48 | An id names its file itself exactly if it has 1 to 64 characters out of a-z, 0-9, dot, underscore and hyphen, the first of them no dot. |
| `RecordNames.RecordStaysInTheDirectory` | src/lore/src/lore_store_helpers.cpp:42-51 | Whatever the id, its file is a plain, visible one of the records directory. |
| `MetadataEdits.MetadataEditService.Save` | src/editing/src/metadata_edit_service.cpp:102-186 | From any checkout: the revision becomes exactly the saved tree, whose records say what the edits say with the digests of what was written, or stays; a failure says whether anything was published; a failed save holds every edit; success means that every step but the final clear worked; and on a healthy open store with nothing staged it succeeds exactly when every edit's record and original are as they were and only edits that change metadata need a format that can be written. |
| `MetadataEdits.MetadataEditService.SaveTwice` | src/editing/src/metadata_edit_service.cpp:102-186 | After a clean failure a second save that meets no fault commits what the first would have; after a lost flush everything is published and the second save is refused. |
| `MetadataEdits.LostFlushRetryIsStale` | src/editing/src/metadata_edit_service.cpp:116-124 | After a lost flush the held edits are current if and only if every one of them changes nothing. |
| `MetadataEdits.SaveKeepsOriginalsMatchedExactlyWhen` | src/editing/src/metadata_edit_service.cpp:155-181 | A save leaves every record with its original if and only if no fingerprint changed or no other original was changed outside. |
| `MetadataEdits.ForeignChangeIsPublished` | src/editing/src/metadata_edit_service.cpp:155-181 | One photo is edited while another is changed outside: the save publishes that change, and a record no longer matches. |
| `MetadataEdits.SavePublishesAForeignChange` | src/editing/src/metadata_edit_service.cpp:155-181 | A run of the service: from a store in which every record matches, one edit saved beside a foreign change leaves a record that does not. |
| `MetadataEdits.UndisturbedSave` | src/editing/src/metadata_edit_service.cpp:155-181 | Where nothing was changed outside, the published originals are the committed ones: each with a changed description is what the writer makes of it, every other one is as it was. |
| `MetadataEdits.RetryCommitsTheSame` | src/editing/src/metadata_edit_service.cpp:155-185 | The edits held after a failed save commit exactly what the first attempt would have committed. |
| `MetadataEdits.HeldStaysABatch` | src/editing/src/metadata_edit_service.cpp:116-137 | Held edits are as current as they were. |
| `MetadataEdits.MetadataEditService.Stage` | src/editing/src/metadata_edit_service.cpp:49-78 | An edit keeps the record it started from through repeated staging; referenced originals are refused. |
| `MetadataEdits.MetadataEditService.Cancel` | src/editing/src/metadata_edit_service.cpp:93-100 | Edits are dropped once the staging area is empty, which it becomes if nothing fails, and kept otherwise. |
| `MetadataEdits.MetadataEditService.CheckEdits` | src/editing/src/metadata_edit_service.cpp:116-154 | All edits pass the checks, among them that the original still has its fingerprint, and only edits that change metadata that their format can be written; exactly then does it succeed if nothing fails. |
| `MetadataEdits.AllCurrentExactlyWhen` | src/editing/src/metadata_edit_service.cpp:116-145 | The checks pass if and only if for every edit the checkout's record is the one it started from, its path is valid, its bytes hash to its fingerprint, and its format can be written if its metadata changes. |
| `MetadataEdits.SavedTreeSays` | src/editing/src/metadata_edit_service.cpp:138-177 | The saved records: those of the edits, with the digest of the written bytes where metadata changed, and all others as they were. |
| `MetadataEdits.RotationNeedsNoWriter` | src/editing/src/metadata_edit_service.cpp:138-143 | A run of the service: a rotation is saved although the writer supports no format. |
| `MetadataEdits.MetadataEditService.WriteBatch` | src/editing/src/metadata_edit_service.cpp:155-158 | Every changed original is rewritten, or the checkout may hold anything of the batch. |
| `MetadataEdits.MetadataEditService.StageWritten` | src/editing/src/metadata_edit_service.cpp:159-177 | Each rewritten original is staged under the digest of its new bytes, which the held edit keeps. |
| `MetadataEdits.MetadataEditService.Prepare` | src/editing/src/metadata_edit_service.cpp:105-177 | On success checkout and staging are exactly the prepared ones; otherwise the store is cleaned up. |
| `MetadataEdits.PreparedIsAccepted` | src/editing/src/metadata_edit_service.cpp:159-179 | What save() prepares is accepted by commit(). |
| `MetadataEdits.PreparedCommitsTheSave` | src/editing/src/metadata_edit_service.cpp:159-181 | Committing what was prepared yields the saved tree, whatever LORE holds of the originals. |
| `MetadataEdits.DistinctPaths` | src/editing/src/metadata_edit_service.cpp:118-153 | Two current edits never write the same original. |
| `MetadataEdits.WriteComesFromEdit` | src/editing/src/metadata_edit_service.cpp:152-153 | Every write request stems from an edit of that path. |
| `Scanner.Scanner.Scan` | src/scan/src/scanner.cpp:148-444 | For every batch size and every cancellation: a completed scan leaves exactly the outcome of the entries, in which a file whose record is managed and of the same known size and time leaves the record as it was and any other hashed file is on record with its identity and fingerprint; a cancelled one leaves that of a prefix. It asks once for each entry and each record under the root and stops only when told to; reports are full batches, but for the last one, concatenate to the staged records, each already durable, and nothing is committed without need. |
| `Scanner.Scanner.BuildIndex` | src/scan/src/scanner.cpp:171-194 | Both indexes list exactly the records under the root, by path and by digest, in id order. |
| `Scanner.Scanner.FindMoved` | src/scan/src/scanner.cpp:342-359 | The first record with the same content whose file is gone and that serves nothing yet. |
| `Scanner.Scanner.JudgeEntry` | src/scan/src/scanner.cpp:243-410 | The index look-ups judge an entry as its specification does: a known media file is unchanged exactly if its record is managed and of the same known size and time, else it is brought up to date, or left if it cannot be hashed. |
| `Scanner.Scanner.CommitBatch` | src/scan/src/scanner.cpp:218-234 | Commits what is staged and reports the batch after it is durable. |
| `Scanner.Scanner.RemoveDuplicates` | src/scan/src/scanner.cpp:413-435 | Exactly the extra records of found, readable paths are removed, unless it is cancelled, which it asks about once for each record under the root. |
| `Scanner.AChangedFileIsReadAgain` | src/scan/src/scanner.cpp:270-329 | A run of the scanner: the file of the only record has another size, and the record carries its identity and fingerprint afterwards. |
| `Scanner.StoredInBatches` | src/scan/src/scanner.cpp:218-241 | Committing in batches stores what one commit of all would. |
| `ScanStaging.ScanIsFitExactlyWhen` | src/scan/src/scanner.cpp:196-444 | What a scan stages, over whatever tombstones are there, is fit for a commit if and only if no original is named like a half-written one and no record that keeps its original is staged beside its own tombstone. |
| `ScanStaging.EveryCommitOfAScanIsFit` | src/scan/src/scanner.cpp:196-444 | With nothing staged before, every commit of a scan is fit, the last one with its removals too, and the durable tree then holds exactly the prefix, and in the end the outcome, of the scan. |
| `ScanStaging.CommittedScan` | src/scan/src/scanner.cpp:215-241 | Committing a batch to the durable store refines the scan's own account of it: the records of the longer prefix, less the removed ones. |
| `ScanStaging.StagedEntry` | src/scan/src/scanner.cpp:316-322 | Each staged entry has its record in a file of its own, and its original exactly if that changed place. |
| `ScanStaging.OriginalPathsAreOwn` | src/scan/src/scanner.cpp:30-42 | Managed paths are never shared by two ids, and none is a directory of another. |
| `ScanStaging.UsableExactlyWhen` | src/scan/src/scanner.cpp:30-42 | A managed path can be published if and only if the file's suffix is not the one of half-written files. |
| `ScanStaging.RemovedThenMoved` | src/scan/src/scanner.cpp:342-359 | A record is a duplicate of one scan; when its file is renamed, the next scan of the same records takes it to be moved, and keeps its original in place. |
| `ScanStaging.MovedOverATombstone` | src/scan/src/scanner.cpp:395-400 | A record that keeps its place, staged over its own tombstone, is accepted and committed without its original, in every sound tree. |
| `ScanStaging.AMovedRecordLosesItsOriginal` | src/scan/src/scanner.cpp:413-441 | A run of the store: a removal is staged, the process ends, the next scan stages the record as moved and commits: the record stays, its original is gone. |
| `ScanStaging.APartialNameIsRefused` | src/lore/src/lore_durable_store_commit.cpp:185-218 | A run of the store: a record whose path ends like a half-written file is refused, because its staged original is cleared away first. |
| `ScanLaws.AnyInterruptionsConverge` | src/scan/src/scanner.cpp:243-247 | Any number of interrupted scans, then a complete one, end in the store of a single uninterrupted scan, up to which fresh ids were drawn. |
| `ScanLaws.InterruptedScanConverges` | src/scan/src/scanner.cpp:218-443 | Rerunning a scan that was cancelled after any prefix ends in the same store. |
| `ScanLaws.ResumedScanAgrees` | src/scan/src/scanner.cpp:243-411 | After each entry the resumed scan has seen, failed and stored what the whole one had. |
| `ScanLaws.CommittedEntry` | src/scan/src/scanner.cpp:265-329 | An entry committed before the interruption is judged the same again, and staged at most as it is stored. |
| `ScanLaws.RemainingEntry` | src/scan/src/scanner.cpp:265-410 | An entry behind the interruption is judged as if there had been none. |
| `ScanLaws.AttemptsAreAPrefix` | src/scan/src/scanner.cpp:243-247 | What any sequence of cancelled runs leaves is what one run leaves after a prefix. |
| `ScanLaws.OutcomeAt` | src/scan/src/scanner.cpp:243-435 | After a scan exactly one record is at the path of each readable media file, none was added for other files, and unreadable paths keep theirs. |
| `ScanLaws.OutcomeIsRescanned` | src/scan/src/scanner.cpp:243-435 | What a scan leaves, file by file: of a known path the first record, as it was or brought up to date; of a new path a record that lost its file and has this content, or a fresh one if no such record is left; of a missing file its record. |
| `ScanLaws.FilesAreScanned` | src/scan/src/scanner.cpp:253-405 | What becomes of one found file, in terms of records, sizes and times. |
| `ScanLaws.MissingFilesAreScanned` | src/scan/src/scanner.cpp:345-358 | A record whose file was not found stays as it was, or is taken along by a file with its content. |
| `ScanLaws.JudgeOfKnown` | src/core/src/types.cpp:108-117 | The verdict on a known file: size and time decide whether it is read again. |
| `ScanLaws.OutcomeIsTallied` | src/scan/src/scanner.cpp:273-405 | The count of added records is what the store gained, added and updated are the staged records, and all three counts are the readable media files. |
| `ScanLaws.NoIdServesTwice` | src/scan/src/scanner.cpp:349-357 | No record serves two found files. |
| `ScanLaws.UnmatchedRecordsSurvive` | src/scan/src/scanner.cpp:415-434 | A record whose file is missing and matched nothing survives unchanged. |
| `ScanLaws.CountsAddUp` | src/scan/src/scanner.cpp:273-405 | Added, updated and unchanged add up to the media files that could be hashed or need not be. |
| `ScanLaws.SecondScanCommitsNothing` | src/scan/src/scanner.cpp:270-276 | A second scan of the same timestamped tree stages and removes nothing and leaves the store as it is. |
| `ScanLaws.SecondVerdict` | src/scan/src/scanner.cpp:265-276 | In a second scan every served entry is unchanged. |
| `ScanLaws.StateInClosedForm` | src/scan/src/scanner.cpp:210-211 | The seen ids and failed paths after each entry. |
| `ScanLaws.PartialAt` | src/scan/src/scanner.cpp:218-241 | Which records are at a path once a prefix is committed. |
| `ScanLaws.UnservedIsKept` | src/scan/src/scanner.cpp:243-411 | A record that serves no entry is not touched. |
| `ScanLaws.StagedRecord` | src/scan/src/scanner.cpp:289-294 | A staged record is managed and carries the identity and fingerprint of its entry. |
| `GridRows.RowList.Reload` | src/browser/src/media_library_model.cpp:208-292 | The in-place path is taken exactly for subsequences, and both paths give the rebuilt rows; replaying the announced ranges on the old ids gives the new ones. |
| `GridRows.InsertionOnly` | src/browser/src/media_library_model.cpp:213-224 | Greedy matching succeeds exactly when the old ids are a subsequence of the new ones. |
| `GridRows.RowList.InsertRows` | src/browser/src/media_library_model.cpp:226-259 | Inserting in place gives the rebuilt list and announces ranges that reproduce it. |
| `GridRows.RowList.InsertRun` | src/browser/src/media_library_model.cpp:244-258 | One run of new rows, inserted where it belongs. |
| `GridRows.RowList.Rebuild` | src/browser/src/media_library_model.cpp:262-291 | The reset path gives the rebuilt list. |
| `GridRows.SurvivorsKeepTheirPictures` | src/browser/src/media_library_model.cpp:279-285 | A surviving row keeps record, picture and settled status, and no request. |
| `GridRows.NewRowsWait` | src/browser/src/media_library_model.cpp:270-276 | A row that was not there waits, with no record, picture or request yet. |
| `GridRows.PassedRowIsNew` | src/browser/src/media_library_model.cpp:244-249 | A row passed over while looking for the next old one was not in the old list. |
| `LibraryModel.MediaLibraryModel.Run` | src/browser/src/media_library_model_thumbnails.cpp:14-295 | Over every run ready rows are the retained ones; and over every run in which the effective limit never drops, also while the records behind the rows change, the provider serves exactly them, within the limit. A trace shows what each event changed of rows, window and settings. |
| `LibraryModel.MediaLibraryModel.Settle` | src/browser/src/media_library_model_thumbnails.cpp:43-266 | From any state of provider and retention list, evicting and asking again ends where the window's rows fit into the limit: after at most as many answers as outstanding work nothing is in flight and every covered row with a source is ready or failed. |
| `LibraryModel.MediaLibraryModel.RunAndSettle` | src/browser/src/media_library_model_thumbnails.cpp:113-163 | After any run, also one that narrowed window or limit, a view that shows rows in order comes to rest. |
| `LibraryModel.MediaLibraryModel.WindowFits` | src/browser/src/media_library_model_thumbnails.cpp:43-53 | A window that is not given backwards always fits into the limit. |
| `LibraryModel.MediaLibraryModel.NeverSettle` | src/browser/src/media_library_model_thumbnails.cpp:62-89 | A window that does not fit never comes to rest while there are pictures for it: after any number of them requests are still in flight. |
| `LibraryModel.MediaLibraryModel.OutstandingRows` | src/browser/src/media_library_model_thumbnails.cpp:155-163 | In a filled window without failures the outstanding work is the number of its rows: each one is retained or waits. |
| `LibraryModel.BackwardWindowNeverSettles` | src/browser/src/media_library_model_thumbnails.cpp:113-125 | A range of two rows given backwards, with a limit of one: each picture drives out the other one, without end. |
| `LibraryModel.MediaLibraryModel.SettleOne` | src/browser/src/media_library_model_thumbnails.cpp:229-266 | Each answer, whatever it evicts, lowers (retained ids of the window from before) + (requests in flight) by one, exactly so when every covered row has a source. |
| `LibraryModel.MediaLibraryModel.OnThumbnailResult` | src/browser/src/media_library_model_thumbnails.cpp:229-266 | Only an indexed key counts; its row shows the picture or fails, agreement is kept, and from any state the outstanding work falls by exactly one. |
| `LibraryModel.MediaLibraryModel.OnThumbnailError` | src/browser/src/media_library_model_thumbnails.cpp:268-295 | A cancelled request changes nothing; any other leaves its own row in error. |
| `LibraryModel.MediaLibraryModel.RetainThumbnail` | src/browser/src/media_library_model_thumbnails.cpp:62-89 | The picture goes to the front of the retention list, the oldest are dropped to the limit, and covered rows that lost theirs ask again. |
| `LibraryModel.MediaLibraryModel.ReleaseThumbnail` | src/browser/src/media_library_model_thumbnails.cpp:91-111 | The provider and the row of this id let go of the picture. |
| `LibraryModel.MediaLibraryModel.SetVisibleRange` | src/browser/src/media_library_model_thumbnails.cpp:113-163 | Requests are in flight for the window only and no covered row is left without asking; the provider stays in agreement if and only if the retained pictures fit the new capacity. |
| `LibraryModel.MediaLibraryModel.RequestThumbnailIfNeeded` | src/browser/src/media_library_model_thumbnails.cpp:189-227 | A pending row with a source gets a request under its own key; nothing else changes. |
| `LibraryModel.MediaLibraryModel.RefreshThumbnail` | src/browser/src/media_library_model_thumbnails.cpp:173-187 | Whatever is held for the row is dropped and asked for again, unless it is loading. |
| `LibraryModel.MediaLibraryModel.InvalidateThumbnails` | src/browser/src/media_library_model_thumbnails.cpp:14-41 | Nothing is held or retained afterwards, agreement holds from any state, and what the view shows in order is asked for again. |
| `LibraryModel.MediaLibraryModel.SetRetainedThumbnailLimit` | src/browser/src/media_library_model.cpp:154-163 | A lower limit keeps agreement if and only if the most recently loaded pictures are among the most recently used ones. |
| `LibraryModel.MediaLibraryModel.SetPrefetchMargin` | src/browser/src/media_library_model.cpp:144-147 | Agreement is kept if the effective limit does not drop. |
| `LibraryModel.MediaLibraryModel.SetThumbnailSize` | src/browser/src/media_library_model.cpp:48-55 | A new size drops every held picture and asks again for what the view shows in order; the same or an empty one does nothing. |
| `LibraryModel.MediaLibraryModel.Reload` | src/browser/src/media_library_model.cpp:184-322 | Both reload paths give the rebuilt rows; every request is withdrawn and, when the view shows rows in order, asked for again for exactly the window, which follows its ends if rows were only inserted; pictures of rows that stay are kept. |
| `LibraryModel.MediaLibraryModel.ReloadAndSettle` | src/browser/src/media_library_model.cpp:184-322 | After a reload the answers come to an end, and every covered row that has a source is ready or has failed. |
| `LibraryModel.WindowFollows` | src/browser/src/media_library_model.cpp:314-318 | After a pure insertion the ends of the window are found again, in order. |
| `LibraryModel.ShrinkingTheWindowLosesPictures` | src/browser/src/media_library_model_thumbnails.cpp:113-125 | A model with 66 loaded rows in view whose window then shrinks to one row: the provider drops pictures of rows that stay ready. |
| `LibraryModel.RetainedAreRecent` | src/browser/src/media_library_model_thumbnails.cpp:62-71 | In agreement every retained id is among the recently used ones. |
| `LibraryModel.ReloadIsServable` | src/browser/src/media_library_model.cpp:262-304 | Agreement survives replacing the rows. |
| `LibraryModel.CancellingOutside` | src/browser/src/media_library_model_thumbnails.cpp:131-143 | Cancelling all but the window loses the requests of the other rows, and only those. |
| `LibraryModel.Delivering` | src/thumbnail/src/thumbnail_service.cpp:104-130 | A delivered request is no longer open, but still indexed. |
| `LibraryModel.MediaLibraryModel.OwnFit` | src/browser/src/media_library_model_thumbnails.cpp:48-52 | While the window's rows fit into the limit, there is always room for the next picture beside those loaded for it. |
| `Thumbnails.RowLoads` | src/browser/src/media_library_model_thumbnails.cpp:243-257 | A loading row that gets its picture keeps index and agreement exact. |
| `Thumbnails.RowRequests` | src/browser/src/media_library_model_thumbnails.cpp:216-226 | A row that asks gets a key that was not in use. |
| `Thumbnails.RowReleases` | src/browser/src/media_library_model_thumbnails.cpp:91-111 | Letting go of one row keeps agreement. |
| `Thumbnails.RowGivesUp` | src/browser/src/media_library_model_thumbnails.cpp:286-291 | A row that stops waiting takes its key along. |
| `Thumbnails.ThumbnailImageProvider.SetImage` | src/browser/src/thumbnail_image_provider.cpp:12-16 | The cache makes room by last use and then holds the image. |
| `Thumbnails.ThumbnailImageProvider.SetCapacity` | src/browser/src/thumbnail_image_provider.cpp:30-34 | Nothing is dropped if and only if everything fits. |
| `Thumbnails.ThumbnailImageProvider.RequestImage` | src/browser/src/thumbnail_image_provider.cpp:54-77 | Serving an image makes it the most recently used one. |
| `Thumbnails.ThumbnailService.Request` | src/thumbnail/src/thumbnail_service.cpp:182-202 | Every request gets a handle that was never open before. |
| `Thumbnails.ThumbnailService.CancelAllExcept` | src/thumbnail/src/thumbnail_service.cpp:214-228 | Exactly the kept handles stay open. |
| `Thumbnails.ThumbnailService.Deliver` | src/thumbnail/src/thumbnail_service.cpp:104-130 | An answer is delivered if and only if its request was not cancelled. |
| `Watch.WatchService.Run` | src/watch/src/watch_service.cpp:76-120 | Over every run of events, ticks, dispatches, completions, retries and process ends with a working queue and fresh job ids, in which every process end was followed by a start-up, no event is lost; finished jobs never change; running jobs, slots in use and cancellation flags agree and stay within the limit. A trace shows what each step changed, and that it changed nothing else. |
| `Watch.WatchService.OnTimerTick` | src/watch/src/watch_service.cpp:84-101 | A due batch, or else a late periodic scan, becomes a pending job or joins one, and with neither nothing happens; coverage is lost exactly if a batch is due, no job is pending, none came into hand since, and a statement that would queue one fails or its id is taken. |
| `Watch.WatchService.OnAdapterEvent` | src/watch/src/watch_service.cpp:76-82 | An event of an active watch is pending in the coalescer. |
| `Watch.WatchService.Start` | src/watch/src/watch_service.cpp:42-59 | Events the adapter reports while starting are not lost. |
| `Watch.WatchService.CoverageIs` | src/watch/src/watch_service.cpp:84-120 | All events are covered if and only if, when handed-over events were not seen yet, a job of the root is pending. |
| `Watch.WatchService.Dispatch` | src/projection/src/job_dispatcher.cpp:132-214 | Claiming loses coverage exactly when marking fails after some rows, every pending job of the root among them, were marked: those rows run for nobody. |
| `Watch.WatchService.ClaimedOrPending` | src/projection/src/job_queue_operations.cpp:93-156 | After a claim a job of the root came into hand exactly if all rows were marked, one of them of this root; one is pending exactly if not all of them were marked. |
| `Watch.WatchService.Finish` | src/projection/src/job_dispatcher.cpp:178-205 | A completion takes no coverage away. |
| `Watch.WatchService.Restart` | src/projection/src/job_queue_operations.cpp:5-15 | When the process ends with jobs in hand and a batch in memory, an event stays covered exactly if it was seen or a row of its root is pending after recovery, which is so exactly if one was pending or running. |
| `Watch.WatchService.StartUp` | src/app/src/library_session.cpp:895-915 | The first scan queued under the key of the watch covers every event of the time before. |
| `Watch.AFailedClaimLosesAChange` | src/projection/src/job_queue_operations.cpp:134-155 | An event becomes a job that is marked as running just before another mark fails: nothing will scan for it. |
| `Watch.ABatchInMemoryIsLost` | src/watch/src/watch_service.cpp:42-49 | An event whose batch was in memory when the process ended is lost, if start-up queues nothing. |
| `Watch.EventCoalescer.Ingest` | src/watch/src/event_coalescer.cpp:11-46 | Every event counts for the batch, whose clock starts with the first; two rename halves with one cookie are a pair, and an overflow forgets lone halves. |
| `Watch.EventCoalescer.TakeDueReconcile` | src/watch/src/event_coalescer.cpp:54-78 | The whole batch is handed over exactly when it is old enough. |
| `JobDispatcher.JobDispatcher.Stop` | src/projection/src/job_dispatcher.cpp:80-115 | With due jobs and a healthy queue draining ends after at most as many completions as the load, and then nothing waits or runs; a job whose worker is known, that nobody cancels and whose every result is done ends as succeeded. |
| `JobDispatcher.JobDispatcher.Complete` | src/projection/src/job_dispatcher.cpp:178-211 | Every completion strictly lowers the load; the slot count never exceeds the limit by it. |
| `JobDispatcher.JobDispatcher.Finish` | src/projection/src/job_dispatcher.cpp:181-194 | A set cancellation flag makes the job cancelled, whatever its worker returned; a known worker that is done makes it succeed, with one more attempt; a retryable failure with attempts left makes it pending without an earliest time; any other failure and a missing worker make it fail. The slot is freed; the row is stranded exactly if the statement that books this fails. |
| `JobDispatcher.OutcomeIsBooked` | src/projection/src/job_dispatcher.cpp:160-194 | What is made of a job is, in terms of states, what its flag, its worker and its result say. |
| `JobDispatcher.StillPromising` | src/projection/src/job_dispatcher.cpp:132-176 | Claiming and handing over take no job off its way to success. |
| `JobDispatcher.JobDispatcher.TryDispatch` | src/projection/src/job_dispatcher.cpp:132-176 | Free slots are filled with the jobs that are due first without changing the load; rows are stranded exactly if one of the updates fails after at least one worked, and then none reaches the pool. |
| `JobDispatcher.AFailedMarkStrands` | src/projection/src/job_dispatcher.cpp:181-194 | A job whose outcome cannot be booked is running in the table, with no slot, flag or worker. |
| `JobDispatcher.AFailedClaimStrands` | src/projection/src/job_queue_operations.cpp:134-155 | Of two jobs the second cannot be marked: the first is running in the table for nobody. |
| `JobDispatcher.CompletedJob` | src/projection/src/job_dispatcher.cpp:178-194 | What a completion does to table, load and stranded rows. |
| `JobDispatcher.DispatchStrands` | src/projection/src/job_queue_operations.cpp:134-155 | What a claim that marks some of its rows makes of the table, the pool, the load and the stranded rows. |
| `JobQueue.JobQueue.Enqueue` | src/projection/src/job_queue_operations.cpp:17-91 | Merged into a pending job with the same key, never into a running one; otherwise inserted once; and refused exactly when the queue is closed, a statement it needs fails or the id of a new row is taken. |
| `JobQueue.JobQueue.Claim` | src/projection/src/job_queue_operations.cpp:93-156 | Takes the first due jobs in claim order, all of them if there is room, and none before its time; when an update fails, exactly the rows before it stay marked and nothing is returned. |
| `JobQueue.JobQueue.MarkFailed` | src/projection/src/job_queue_operations.cpp:185-227 | A running job with one more attempt waits again, without an earliest time, if the failure is retryable and attempts remain; otherwise it fails for good. |
| `JobQueue.JobQueue.MarkSucceeded` | src/projection/src/job_queue_operations.cpp:158-183 | A running job succeeds, with one more attempt; any other one is left alone. |
| `JobQueue.JobQueue.MarkCancelled` | src/projection/src/job_queue_operations.cpp:229-253 | Only a pending or running job is cancelled. |
| `JobQueue.RetryBesideItsFollowUp` | src/projection/src/job_queue_operations.cpp:26-50 | A job is claimed, its follow-up is queued, and the job fails and waits again: two jobs with one key are pending. |
| `JobQueue.JobQueue.RecoverInterruptedJobs` | src/projection/src/job_queue_operations.cpp:5-15 | Running jobs wait again, all others stay. |
| `JobQueue.JobQueue.PendingCount` | src/projection/src/job_queue_operations.cpp:314-336 | The number of pending jobs, or -1 exactly if the queue is closed or the statement fails. |
| `Jobs.OrdersAgreeExactlyWhen` | src/core/src/job.cpp:183-199 | The claim order is the documented one if and only if priorities differ or both or neither job has a creation time. |
| `Jobs.ClaimsFollowRunsBefore` | src/projection/src/job_queue_operations.cpp:107-120 | With creation times the claimed jobs are sorted and precede all others in the documented order. |
| `Jobs.TimelessJobOvertakes` | src/core/src/job.cpp:188-191 | A job without a creation time is claimed first although it should come last. |
| `Jobs.SelectionIsUnique` | src/projection/src/job_queue_operations.cpp:107-120 | The table alone determines what is claimed, and in which order. |
| `Jobs.Select` | src/projection/src/job_queue_operations.cpp:107-120 | The ordered and limited query, as a sorted selection. |
| `Jobs.RetryKeepsKeysApartExactlyWhen` | src/projection/src/job_queue_operations.cpp:26-50 | A retry keeps one pending job per key if and only if no follow-up is pending or no attempt remains. |
| `Jobs.CompletionLowersLoad` | src/projection/src/job_queue_operations.cpp:158-227 | Whatever becomes of a job in hand, the sum of remaining attempts strictly drops. |
| `Jobs.RetryIsLighter` | src/projection/src/job_queue_operations.cpp:204-211 | A retry costs exactly one from the weight of its job. |
| `Jobs.StartingKeepsLoad` | src/projection/src/job_queue_operations.cpp:134-155 | Claiming leaves the load as it is. |
| `Jobs.StrandingLowersLoad` | src/projection/src/job_queue_operations.cpp:134-155 | A claim that fails half-way cannot raise the load. |
| `Jobs.EvolvesFurther` | src/projection/src/job_queue_operations.cpp:158-253 | Never losing a job and never changing a finished one composes over any run. |
| `Projection.ProjectionDatabase.Run` | src/projection/src/projection_db_write.cpp:112-274 | Over every run of rebuilds, batches, commits and what other processes do between any two reads, a projection that is not stale tells the truth, given batches that carry current versions and no rebuild that was answered out of the middle of a commit. A trace shows what each step did. |
| `Projection.ProjectionDatabase.RebuildFrom` | src/projection/src/projection_db_write.cpp:112-213 | All or nothing: it succeeds only if every statement works and every question is answered, and fails only if one does not or somebody else interferes; stamped with the token read first, so that a commit in between leaves it stale; otherwise it is exact if and only if the checkout answered every question about records as the revision would have. |
| `Projection.ReadingACommitInProgress` | src/projection/src/projection_db_write.cpp:112-213 | A rebuild reads what a commit put into the checkout; the commit fails and restores it: the projection is not stale and wrong. |
| `Projection.ProjectionDatabase.FillFrom` | src/projection/src/projection_db_write.cpp:171-187 | The tables are exactly those of the records that were loaded. |
| `Projection.ProjectionDatabase.ApplyRecords` | src/projection/src/projection_db_write.cpp:215-274 | All or nothing, and all exactly if the database is open and every statement works; the rows of each record are replaced. |
| `Projection.ProjectionDatabase.InsertRecord` | src/projection/src/projection_db_write.cpp:13-110 | One media row, one row per tag, one text row, or nothing; nothing exactly if the id is taken or one of these statements fails. |
| `Projection.ProjectionDatabase.IsStale` | src/projection/src/projection_database.cpp:335-349 | Not stale exactly if it can be read and shows the token that the store answers with, and then the tables of a truthful projection hold exactly the committed records. |
| `Projection.ApplyingEqualsRebuilding` | src/projection/src/projection_db_write.cpp:215-274 | Applying a batch gives the tables a rebuild from the updated records would. |
| `Projection.ApplyingKeepsTruthExactlyWhen` | src/projection/src/projection_db_write.cpp:215-274 | Applying a batch to a truthful projection keeps it truthful if and only if the batch changes no record. |
| `Projection.ReflectsOnlyOne` | src/projection/src/projection_db_write.cpp:34-65 | The tables determine the records. |
| `Projection.InsertedReflects` | src/projection/src/projection_db_write.cpp:13-110 | Inserting the rows of a new record keeps the tables exact. |
| `Projection.DeletedReflects` | src/projection/src/projection_db_write.cpp:235-254 | Deleting the rows of an id keeps the tables exact. |
| `BackupArchive.BackupAndRestore` | src/app/src/library_manager_storage.cpp:130-272 | Backing up and restoring gives back exactly the files; it fails if and only if a file changed or cannot be read or written, a name or the number of files is too large, or space runs out. |
| `BackupArchive.WriteArchive` | src/app/src/library_manager_storage.cpp:130-196 | The archive is the encoding of the files, written if and only if each was readable and the same in both passes, names and number are small enough, and there is space. |
| `BackupArchive.ExtractArchive` | src/app/src/library_manager_storage.cpp:198-272 | Extracts exactly the archives that parse and whose files can coexist, unless one cannot be written, into exactly their files; every file written lies inside the store. |
| `BackupArchive.NestedNamesAreRefused` | src/app/src/library_manager_storage.cpp:234-244 | An archive with a name and another one below it parses but is not extracted. |
| `BackupArchive.ReadEntry` | src/app/src/library_manager_storage.cpp:221-264 | Reads an entry and its content in chunks as the format says. |
| `BackupArchive.ReadContent` | src/app/src/library_manager_storage.cpp:246-259 | The chunked loop reads exactly the declared size, or fails if it is not there. |
| `BackupArchive.Copy` | src/app/src/library_manager_storage.cpp:172-183 | The chunked loop copies and digests the whole content, exactly if there is space for it. |
| `BackupArchive.FilesAreTheEntries` | src/app/src/library_manager_storage.cpp:221-265 | The extracted files are the entries, each name once. |
| `ArchiveFormat.RoundTrip` | src/app/src/library_manager_storage.cpp:149-171 | Parsing an encoded list of entries gives back the list. |
| `ArchiveFormat.Canonicity` | src/app/src/library_manager_storage.cpp:206-271 | Every accepted archive is the encoding of what it is read as. |
| `ArchiveFormat.NothingCutOffOrAdded` | src/app/src/library_manager_storage.cpp:266-270 | No strict extension of an accepted archive is accepted, hence no strict prefix of a written one. |
| `ArchiveFormat.SafeStaysInside` | src/app/src/library_manager_storage.cpp:52-57 | A safe path is relative, begins with the store directory and never steps out. |
| `ArchiveFormat.SafeExactlyWhen` | src/app/src/library_manager_storage.cpp:52-57 | A path is safe exactly if it begins with the store directory and nothing between or behind its slashes is empty, a dot or two dots. |
| `ArchiveFormat.EntryIsCanonical` | src/app/src/library_manager_storage.cpp:222-232 | An accepted entry is the encoding of what it is read as. |
| `ArchiveFormat.EntryParses` | src/app/src/library_manager_storage.cpp:171-182 | An encoded entry is read back, whatever follows it. |
| `BoxWalk.WalkIsOrderly` | src/metadata/src/iso_bmff_reader.cpp:153-249 | Every visited box lies inside the range it was looked for in, headers are at least eight bytes apart, and depth stays within eight. |
| `BoxWalk.WalkIsLinear` | src/metadata/src/iso_bmff_reader.cpp:153-249 | A walk reads at most one box per eight bytes of the file. |
| `BoxWalk.ChildrenLieInThePayload` | src/metadata/src/iso_bmff_reader.cpp:178-205 | Boxes found inside a box lie in its payload, one level deeper. |
| `BoxWalk.ReadBox` | src/metadata/src/iso_bmff_reader.cpp:45-76 | A header is accepted only if header and declared size fit before the limit. |
| `IsoBmff.Walk` | src/metadata/src/iso_bmff_reader.cpp:187-207 | The loop gathers what its visits contribute, in order. |
| `IsoBmff.WalkTrack` | src/metadata/src/iso_bmff_reader.cpp:156-185 | The loop over a track gathers what its visits contribute. |
| `IsoBmff.WalkHeifImage` | src/metadata/src/iso_bmff_reader.cpp:228-249 | The loop over a still image gathers what its visits contribute. |
| `IsoBmff.ReadMovieHeader` | src/metadata/src/iso_bmff_reader.cpp:78-123 | Duration and creation time of either header version, with 64-bit wrap-around. |
| `IsoBmff.ReadIsoBmff` | src/metadata/src/iso_bmff_reader.cpp:268-287 | What a movie file says, and when its duration is missing. |
| `IsoBmff.ReadHeifImage` | src/metadata/src/iso_bmff_reader.cpp:253-266 | What a still image file says. |
| `IsoBmff.GatheredTogether` | src/metadata/src/iso_bmff_reader.cpp:187-207 | Contributions of consecutive walks compose. |
| `IsoBmffWriter.MovieReadsBack` | tools/fixture_generator/fixtures.cpp:106-178 | For every writable movie the reader finds floor(duration * 1000 / timescale), the first non-zero track size, and sound exactly if some handler says so. |
| `IsoBmffWriter.WriteMovie` | tools/fixture_generator/fixtures.cpp:106-178 | The appended bytes are the boxes of the movie. |
| `IsoBmffWriter.WriteTrack` | tools/fixture_generator/fixtures.cpp:127-163 | The appended bytes are the boxes of the track. |
| `IsoBmffWriter.WrittenBoxIsRead` | tools/fixture_generator/fixtures.cpp:58-65 | A written box is read as it was written. |
| `IsoBmffWriter.TrackReadsBack` | tools/fixture_generator/fixtures.cpp:127-163 | A written track contributes its size and its sound. |
| `IsoBmffWriter.TracksReadBack` | tools/fixture_generator/fixtures.cpp:165-167 | A written list of tracks contributes each of them, in order. |
| `IsoBmffWriter.TracksTogether` | src/metadata/src/iso_bmff_reader.cpp:167-177 | Of a list of tracks the first size and any sound win. |
| `IsoBmffWriter.NoWrap` | src/metadata/src/iso_bmff_reader.cpp:109-112 | Written durations never wrap around. |
| `BoxContents.BoxIsReadExactlyWhen` | src/metadata/src/iso_bmff_reader.cpp:45-76 | A box is read exactly if its header lies before the limit and its 32-bit, 64-bit or open size covers the header and ends before the limit. |
| `BoxContents.CutHeaderIsNotRead` | src/metadata/src/iso_bmff_reader.cpp:45-65 | A box is not read if its header, or the 64 bits of its size, are cut off. |
| `BoxContents.LongMovieHeaderIsRead` | src/metadata/src/iso_bmff_reader.cpp:78-98 | A version 1 header: 64-bit signed creation time, 32-bit timescale, 64-bit duration, in these places. |
| `BoxContents.ShortMovieHeaderIsRead` | src/metadata/src/iso_bmff_reader.cpp:99-108 | A header of any other version has 32-bit times. |
| `BoxContents.CutMovieHeaderIsNotRead` | src/metadata/src/iso_bmff_reader.cpp:90-105 | A movie header says nothing exactly if it is cut off. |
| `BoxContents.HeaderSays` | src/metadata/src/iso_bmff_reader.cpp:110-122 | Duration in milliseconds from a product that wraps around in 64 bits; creation time counted from 1904; zeros say nothing. |
| `BoxContents.TrackSizeIsRead` | src/metadata/src/iso_bmff_reader.cpp:125-151 | The size of a track is in whole pixels at the end of a long enough header; without pixels it is none. |
| `BoxContents.ImageSizeIsRead` | src/metadata/src/iso_bmff_reader.cpp:210-222 | The extents of a still image, behind version and flags; an extent of zero is none. |
| `BoxContents.CutImageSizeIsNotRead` | src/metadata/src/iso_bmff_reader.cpp:210-217 | Extents that are cut off say nothing. |
| `BoxContents.StillReadsBack` | src/metadata/src/iso_bmff_reader.cpp:228-266 | For every size the reader finds the size of a written still image, through the boxes around it. |
| `JpegReader.InjectedExifReadsBack` | tools/fixture_generator/exif_builder.cpp:215-240 | Whatever follows, a file into which a block was injected says what its specification says, overridden by the last usable EXIF block and the XMP packets behind that, with the size of the last frame; it is read if and only if it has one. |
| `JpegReader.InjectedIsReadExactlyWhen` | tools/fixture_generator/exif_builder.cpp:215-240 | Every specification reads back from a file if and only if the file has a frame and, behind its leading application segments, no usable EXIF block and no XMP packet that says anything. |
| `JpegReader.LaterExifWins` | src/metadata/src/image_reader.cpp:111-128 | With a second block behind a comment the file says what the second one says. |
| `JpegReader.ReadJpeg` | src/metadata/src/image_reader.cpp:52-154 | The marker loop reads what the segments say, or nothing without a frame header. |
| `JpegReader.NextSegment` | src/metadata/src/image_reader.cpp:63-98 | One marker with its padding and segment, or the end. |
| `JpegReader.InjectExif` | tools/fixture_generator/exif_builder.cpp:215-240 | The segment replaces the leading application segments. |
| `JpegReader.ScannedIsLater` | src/metadata/src/image_reader.cpp:101-141 | The loop over the segments comes to what they say taken together: the last usable EXIF block, the packets after it and the last frame win. |
| `JpegReader.App1IsFirst` | tools/fixture_generator/exif_builder.cpp:201-212 | A block that fits is one segment, with the right length. |
| `JpegSegments.FrameMarkers` | src/metadata/src/image_reader.cpp:101-102 | The markers of frame headers. |
| `JpegSegments.SegmentIsTaken` | src/metadata/src/image_reader.cpp:63-98 | A whole segment is taken as it was written, however much padding is before its marker. |
| `JpegSegments.TakenIsASegment` | src/metadata/src/image_reader.cpp:63-98 | What is taken as a segment is a whole one, with padding, marker and length. |
| `JpegSegments.StandaloneIsTaken` | src/metadata/src/image_reader.cpp:80-83 | Markers without a segment are passed over. |
| `JpegSegments.TakenIsStandalone` | src/metadata/src/image_reader.cpp:80-83 | What is passed over is such a marker with its padding, and nothing else. |
| `JpegSegments.SegmentsEndExactlyWhen` | src/metadata/src/image_reader.cpp:63-98 | The segments end in order exactly at the end of the data or at the marker that ends the image or starts the scan; any other end is early. |
| `JpegSegments.FrameSays` | src/metadata/src/image_reader.cpp:101-113 | A frame header has the size, height first; a size without pixels is none. |
| `JpegSegments.ApplicationSegmentSays` | src/metadata/src/image_reader.cpp:114-141 | An application segment says what its block or packet says if it starts like one of these, and nothing otherwise. |
| `JpegSegments.OtherSegmentsSayNothing` | src/metadata/src/image_reader.cpp:101-114 | No other segment says anything. |
| `JpegSegments.LeadingSegmentGoes` | tools/fixture_generator/exif_builder.cpp:215-240 | A leading application segment goes, with its whole length. |
| `JpegSegments.OtherSegmentsStay` | tools/fixture_generator/exif_builder.cpp:222-232 | Data that does not start with one of these segments stays. |
| `JpegSegments.CutSegmentGoes` | tools/fixture_generator/exif_builder.cpp:222-236 | A leading application segment that is longer than the data takes all of it. |
| `ExifRoundTrip.BlockReadsBack` | tools/fixture_generator/exif_builder.cpp:136-213 | The block of a specification with trimmed, NUL-free texts is read back as make, model, rotation, time, offset and location. |
| `ExifRoundTrip.ValuesStandApart` | tools/fixture_generator/exif_builder.cpp:113-132 | Every out-of-line value stands whole at its even recorded place in the block, apart from all others. |
| `ExifRoundTrip.CoordinatesComeBack` | tools/fixture_generator/exif_builder.cpp:84-106 | Coordinates come back within 1/7200000 of a degree. |
| `ExifRoundTrip.LocationReadsBack` | src/metadata/src/tiff_reader.cpp:250-293 | The location comes back with its signs, and within its valid range. |
| `ExifRoundTrip.CaptureReadsBack` | src/metadata/src/tiff_reader.cpp:426-450 | The time comes back with its offset, or without one if none was written. |
| `ExifRoundTrip.DirectoryReadsBack` | src/metadata/src/tiff_reader.cpp:88-134 | A written directory is read entry by entry. |
| `ExifRoundTrip.EntryReadsBack` | src/metadata/src/tiff_reader.cpp:99-132 | A written entry is read with the value it was given, in place or not. |
| `ExifRoundTrip.TextReadsBack` | src/metadata/src/tiff_reader.cpp:136-147 | Trimmed text without NUL survives termination, padding and trimming. |
| `ExifRoundTrip.CoordinateReadsBack` | src/metadata/src/tiff_reader.cpp:195-207 | Three rationals give back the rounded angle. |
| `ExifBuilder.AngleIsClose` | tools/fixture_generator/exif_builder.cpp:84-106 | Rounding to a thousandth of a second costs at most 1/7200000 degree and never leaves a range of whole degrees. |
| `ExifBuilder.ValuesDoNotOverlap` | tools/fixture_generator/exif_builder.cpp:113-132 | Values in the data area do not overlap and start at even places. |
| `ExifBuilder.AppendIfd` | tools/fixture_generator/exif_builder.cpp:113-132 | The appended directory and the grown data area. |
| `ExifBuilder.BuildExifApp1` | tools/fixture_generator/exif_builder.cpp:136-213 | The appended segment is the block with its header and length. |
| `ExifBuilder.OffsetsFit` | tools/fixture_generator/exif_builder.cpp:167-176 | All computed offsets fit into 32 bits. |
| `TiffReader.ReadIfd` | src/metadata/src/tiff_reader.cpp:88-134 | The loop reads the directory, skipping what it does not understand and keeping what was read before an unreadable entry. |
| `TiffReader.ReadExifTiffBlock` | src/metadata/src/tiff_reader.cpp:346-471 | The fields of a block in either byte order, with what its XMP packet overrides, or nothing if its header or primary directory is unusable. |
| `ExifValues.Number16IsReadExactlyWhen` | src/metadata/src/tiff_reader.cpp:24-32 | A 16-bit number is read exactly if its two bytes are there, in the order of the block. |
| `ExifValues.Number32IsReadExactlyWhen` | src/metadata/src/tiff_reader.cpp:34-42 | A 32-bit number is read exactly if its four bytes are there, in the order of the block. |
| `ExifValues.EntryIsRead` | src/metadata/src/tiff_reader.cpp:53-132 | In either byte order an entry is read with its value, in place or where it points; it is skipped exactly if its type is not taken or its value is not there. |
| `ExifValues.EntriesAreReadExactlyWhen` | src/metadata/src/tiff_reader.cpp:101-110 | The entries of a directory are read to the end exactly if none is cut off. |
| `ExifValues.DirectoryIsReadExactlyWhen` | src/metadata/src/tiff_reader.cpp:88-110 | A directory is usable exactly if it has at most 512 entries and none is cut off. |
| `ExifValues.TextIsRead` | src/metadata/src/tiff_reader.cpp:136-147 | A text ends before the first NUL and has no blanks around it. |
| `ExifValues.IntegerIsReadExactlyWhen` | src/metadata/src/tiff_reader.cpp:149-173 | Which types and bytes are an integer. |
| `ExifValues.RationalIsRead` | src/metadata/src/tiff_reader.cpp:177-193 | A rational is a numerator over a denominator that is not zero. |
| `ExifValues.CutRationalIsNotRead` | src/metadata/src/tiff_reader.cpp:177-188 | A rational that is cut off is none. |
| `ExifValues.CoordinateIsReadExactlyWhen` | src/metadata/src/tiff_reader.cpp:195-207 | An angle is degrees, minutes and seconds, all three of at least three values. |
| `ExifValues.RotationIs` | src/metadata/src/tiff_reader.cpp:326-344 | The rotation of each orientation. |
| `ExifValues.OffsetIsReadExactlyWhen` | src/metadata/src/tiff_reader.cpp:220-238 | A time offset is a sign, hours up to 23 and minutes up to 59, in seconds. |
| `ExifValues.CaptureIs` | src/metadata/src/tiff_reader.cpp:426-449 | The original time wins over that of the last change, and the original's offset over the general one; placeholders and texts that are no dates do not count. |
| `ExifValues.LocationIsFoundExactlyWhen` | src/metadata/src/tiff_reader.cpp:250-275 | A location is found exactly if both angles are there and in range, negative in the south and in the west. |
| `ExifValues.AltitudeIsFoundExactlyWhen` | src/metadata/src/tiff_reader.cpp:277-290 | An altitude is a rational, negative if its reference is 1. |
| `ExifValues.BlockIsReadExactlyWhen` | src/metadata/src/tiff_reader.cpp:346-372 | A block is read exactly if it starts with its byte order, 42 and the place of a usable primary directory. |
| `ExifValues.BlockSays` | src/metadata/src/tiff_reader.cpp:346-471 | Which entry of which directory each field of a block comes from, and that the embedded packet wins. |

## Left out

- LORE itself, its status queries, history and checkpoint provenance: only the two facts above.
- Server promotion, library identity and descriptor files: foreign calls and plain JSON. A descriptor
  counts as a file outside the records.
- Symbolic links and canonical paths: whether a relative path is clean and resolves inside the checkout is an arbitrary predicate of the path (`Env.inside`).
- Unreadable record files and files with unknown suffixes in the staging area: every staged file is a record,
  a tombstone or an original.
- Loops over sorted file lists in commit() run over sets in any order; the results do not depend on it.
- LoreStore.LoreDurableStore.Remove: deleting the staged original and record is taken to succeed, as the code does not look at the result.
- After a failed commit whose restore also failed, later commits of the same session start outside `Ready` and
  are only covered by the clauses that do not need it.
- MetadataEdits.MetadataEditService.SaveTwice: covers a retry in the same process after a restore that worked; held edits do not outlive the process.
- A revision commit that LORE performed but did not report: the commit is taken to have failed then.
- Scanner.Scanner.Scan: the store behind the scan is a failure-free one, which `ScanStaging` relates to the durable store, and fresh ids come from a list with one id per entry.
- ScanStaging.StagedBy: the file that is copied is taken to be the one that was hashed; otherwise staging it fails and the scan ends.
- Directories that hold no original: a directory is there as long as an original lies below it, in the checkout and in the staging area.
- Warnings of scans and readers, and progress numbers other than the counts.
- Requests and rows announced to views (`dataChanged`), delegates, QML and settings.
- LibraryModel.MediaLibraryModel.OnThumbnailError: a delivered error with the code for cancellation leaves its row waiting, as in the code; no component produces it.
- Thumbnail rendering and the disk cache: an answer is a picture, bytes that hold none, or a failure.
- The cache key of a thumbnail request as a string: requests are compared by id, fingerprint and size.
- Jobs.Select: ids compare by character, as UTF-16 and as UTF-8 bytes alike for the ids in use.
- Projection.DurableStore: one question at a time sees one state of the checkout; a record file that is being written while it is read is not modelled.
- Projection columns that only copy more record fields, search queries, schema and migrations.
- BackupArchive.WriteArchive: directories are not walked; the listing is given, with safe names, none below another, and sizes below 2^63.
- BackupArchive.ExtractArchive: the destination is empty at first.
- ArchiveFormat.IsSafe: Unix paths; drive letters and backslashes are not modelled.
- IsoBmff.ReadMovieHeader: a creation time is a number of seconds; whether the date library accepts it is not modelled.
- IsoBmffWriter.MovieReadsBack: sizes of tracks are below 65536, the 16 bits the format has for them.
- TiffReader.OffsetSeconds: hours and minutes are two digits; the library's number parser would also take a sign or a blank for the first.
- JpegReader.Scanned: warnings; without a frame header a file is not read, and the sizes its EXIF blocks claim are not characterised.
- ExifBuilder.AngleOf: exact arithmetic instead of doubles.
- PNG chunks and bare TIFF dimensions, image rotation and cropping, tier sizes, enumerations and JSON field lists are not modelled.
