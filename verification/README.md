# Verified model of a file and document store

The service stores users' files with deduplication and quotas, splits uploaded PDFs into pages in background workers,
and limits each user's request rate. This project models its three stateful parts and proves what they guarantee over
every run. `dafny verify dfyconfig.toml` checks all of it.

**The ledger.** `Ledger` holds the users and files tables. `SaveTx` and `DeleteTx` say what one transaction does, for
any row an unordered `LIMIT 1` may return; the class `MetadataStore` executes the statements, with rollback, and is
proved against them. Sums of int64 wrap in the quota check and out-of-range column values fail the transaction.
`LedgerRuns` proves what holds over serial runs, `QuotaLocks` interleaves the same transactions statement by
statement under row locks, and `FileServices` puts the bucket and the compensation of failed uploads on top and says
exactly which calls make the bucket lose an object that is in use.

**The document protocol.** `Documents` is the document store, one function and one method per statement, and the
watchdog's sweep. `FanOut` is the page goroutines of one extraction with their semaphore, wait group and first error.
`Worlds` gathers what all actors share (tables, bucket, queue, clock) and shows what each atomic effect keeps;
`Extraction` is the transition system of uploads, any number of overlapping, retried or crashing extraction runs,
page goroutines, sweeps, deletions with background cleanup, webhooks and file traffic; `ExtractionRuns` holds the
theorems over its reachable states and runs, `Outcomes` says by which steps every row and object comes, changes and goes
and that failed calls lead to failed documents, and `LateUploads` builds continuations of runs, to say exactly when the
cleanup of a deleted document is complete. `PageReads` is the reading side. `Keys` shows that the formatted object
keys distinguish what the structured keys of the model distinguish.

**The limiter.** `RateLimiter` compacts each user's timestamps in place in a slice over a backing array, and is proved
against a function on sequences; `RateLimiterRuns` proves the window bound, the agreement with the full history and
the optimality of greedy admission. The code reads the clock before it takes the lock, so operations may be served out
of time order; `ClockOrder` says for each of the three exactly which orders of readings it survives.

Two promises of the repository's own text are not kept by its code, and the model follows the code:

- `README.md:316` and the comment at `db/migrations/001_init.sql:31-32` say that a shared object is removed only with
  its last reference. For arbitrary `LIMIT 1` choices it is not (`LedgerRuns.PrematureReleaseHappens`);
  `LedgerRuns.PrematureExactly` says in which states a delete can go wrong, `FileServices.AgreementExactly` which calls
  of a run do, and `FileServices.StoreAgreement` names a discipline under which none does.
- `config/config.go:47` reads a limit of 0 as "disabled". `allow` denies every request then
  (`ClockOrder.ZeroDeniesAll`).

## Model

| member | source | states |
|---|---|---|
| Keys.DecimalInjective | worker/processor.go:182 | distinct page numbers print differently |
| Keys.DecimalReads | worker/processor.go:182 | a page number is printed as the decimal string that denotes it, without a leading zero |
| Keys.SanitizeOnlySpaces | service/file_service.go:118-127 | no space remains in a name, each has become an underscore, and nothing else changes |
| Keys.LayoutOfPages | worker/processor.go:182 | page 12 of document d lies at documents/d/pages/12.pdf |
| Keys.FormatInjective | worker/processor.go:181-182 | no two objects of the bucket, of either service and any owner, share a formatted key |
| Keys.BucketByString | service/document_service.go:125-126 | looking up, storing and removing by formatted string agree with the structured keys the model uses |
| Keys.SameKeySamePrefix | service/file_service.go:118-127 | two uploads get the same key only for the same user, the same first 16 hash digits and the same sanitized name |
| RateLimiter.Compact | middleware/ratelimit.go:66-73 | after the in-place prune the slice holds exactly the timestamps after the cutoff, in order, in the same backing array |
| RateLimiter.Append | middleware/ratelimit.go:81 | append extends the elements by one, in place or in a fresh larger array |
| RateLimiter.AnyAfter | middleware/ratelimit.go:92-98 | the early-exit scan finds whether some timestamp is after the cutoff |
| RateLimiter.Limiter.Prune | middleware/ratelimit.go:66-73 | compacting one user's array leaves every other user's timestamps unchanged |
| RateLimiter.Limiter.Allow | middleware/ratelimit.go:59-83 | decision and whole new state are those of pruning, comparing with the limit and recording, on values; backing arrays stay unshared |
| RateLimiter.Limiter.Cleanup | middleware/ratelimit.go:85-105 | whatever order the users are visited in, exactly those without a timestamp after the cutoff are dropped and the others keep theirs |
| RateLimiterRuns.BufferIsHistory | middleware/ratelimit.go:66-82 | a user's buffer holds as many timestamps of an interval as the full history of admissions, unless an operation has read a cutoff past an earlier request of that interval |
| RateLimiterRuns.BufferTracked | middleware/ratelimit.go:66-82 | in any run a user's buffer holds, in call order, admitted requests of that user that no request since had to prune |
| RateLimiterRuns.RefinesFullHistory | middleware/ratelimit.go:59-105 | a decision is "fewer than limit past admissions lie after now - window" over the full history, unless an operation in between read a cutoff past an admission that still counts |
| RateLimiterRuns.WindowBound | middleware/ratelimit.go:59-83 | over every run and instant t at most limit admissions of a user lie in (t - window, t], unless a cutoff was read past one of the user's requests that shares a window with a later one |
| RateLimiterRuns.GreedyIsOptimal | middleware/ratelimit.go:59-83 | on every prefix of every run the limiter admits at least as many of a user's requests as any selection that keeps to the limit in every window, whatever the clock readings of other users and of cleanups, unless the user's own requests overtake or split one another |
| ClockOrder.ErasedAdmitsBoth | middleware/ratelimit.go:85-104 | for any three readings of which the second's cutoff passes the first while the first still counts for the third, a run with a cleanup in the middle admits both requests under a limit of 1 |
| ClockOrder.RefinementExactly | middleware/ratelimit.go:60-82 | for given clock readings, all runs decide by the full history if and only if no reading's cutoff passes an earlier one that still counts for a later one |
| ClockOrder.WindowBoundExactly | middleware/ratelimit.go:60-82 | for given clock readings, all runs keep the window bound if and only if no reading's cutoff passes an earlier one that shares a window with a later one |
| ClockOrder.OptimalityExactly | middleware/ratelimit.go:60-82 | for given clock readings, greedy admission is optimal in all runs under all positive limits if and only if no reading is overtaken by an earlier one beyond its window and none splits two later ones |
| ClockOrder.OrderedIsEnough | middleware/ratelimit.go:60-63 | non-decreasing readings meet all three conditions |
| ClockOrder.OutOfOrderBreaksBound | middleware/ratelimit.go:60-63 | a run with readings 20, 30, 25 admits two requests in a window of one |
| ClockOrder.NothingAdmittedWithoutLimit | middleware/ratelimit.go:75-78 | in every configuration with neither a positive limit nor a positive window a feasible selection beats the limiter |
| ClockOrder.ZeroDeniesAll | middleware/ratelimit.go:75-78 | every request is denied in every state if and only if the limit is at most 0 |
| Ledger.MetadataStore.Save | storage/metadata.go:141-219 | the statements commit exactly the state and result of SaveTx for the row LIMIT 1 returned, and change nothing on a missing user, an exceeded quota or an out-of-range column |
| Ledger.SaveExactly | storage/metadata.go:148-218 | a save succeeds if and only if the user exists, the bytes stay within quota and column and the raised counter within its own; the exact rows, accounts and errors in every case, wrap-around included |
| Ledger.MetadataStore.FindActive | storage/metadata.go:160-173 | returns any active row of the hash, and none exactly when there is none |
| Ledger.MetadataStore.Delete | storage/metadata.go:236-298 | the statements commit exactly the state and result of DeleteTx for the row LIMIT 1 returned; a row that is missing, foreign or soft-deleted changes nothing |
| Ledger.DeleteExactly | storage/metadata.go:243-297 | a delete finds exactly the caller's active rows and releases if and only if the counter read is at most 1; hard or soft removal, the counter, the key and the account in every case |
| Ledger.MetadataStore.Charge | storage/document_store.go:43-50 | without a quota check, exactly this user's bytes rise by the size, or nothing changes if the user is missing or the sum leaves the column's range |
| LedgerRuns.CountersAfterSave | storage/metadata.go:175-206 | a dedup hit raises the picked counter and adds a second row with counter 1; a fresh save happens only when the hash has no active row |
| LedgerRuns.CountersAfterDelete | storage/metadata.go:256-285 | how a delete changes a hash's active counters, including when the row it decrements is the row it deletes |
| LedgerRuns.BalancedStep | storage/metadata.go:160-285 | any transaction that releases nothing keeps a hash's counters positive with a sum below twice their number |
| LedgerRuns.CounterBounds | storage/metadata.go:160-285 | from a fresh save to the first release, N active counters sum to between N and 2N - 1 and none exceeds N, for all LIMIT 1 choices |
| LedgerRuns.NoLeak | storage/metadata.go:256-285 | a hash left with no active row since a fresh save has been released by some Delete in between |
| LedgerRuns.PrematureExactly | storage/metadata.go:256-272 | a Delete can release an object other active rows use if and only if the hash has two or more active rows and one of their counters is at most 1 |
| LedgerRuns.PrematureReleaseHappens | storage/metadata.go:256-272 | a concrete run of three uploads and two deletes releases the object of a row that is still active |
| LedgerRuns.OneKeyPerHash | storage/metadata.go:175-206 | in every run all active rows of a hash share one object key |
| LedgerRuns.ReleasedKeyIsShared | storage/metadata.go:264-272 | the key a Delete returns is that of every active row of the hash |
| LedgerRuns.Conservation | storage/metadata.go:208-216 | bytes used equal the sizes of the user's active files plus those of every document the user ever created |
| LedgerRuns.DeleteConserves | storage/metadata.go:287-291 | a Delete gives back exactly the deleted row's size |
| LedgerRuns.ClampNeverActs | storage/metadata.go:287-291 | the GREATEST(0, ...) of a Delete never takes effect in any run |
| LedgerRuns.FilesWithinQuota | storage/metadata.go:155-158 | in every state of every serial run, with any LIMIT 1 choices, a user's active files fit the quota |
| LedgerRuns.CompensationRestores | service/file_service.go:157-160 | deleting a fresh save at once takes the hard branch and restores both tables exactly |
| QuotaLocks.ClampNeverActs | storage/metadata.go:287-291 | nor does it at any Delete of any interleaving of the transactions' statements |
| QuotaLocks.OthersStayCurrent | storage/metadata.go:148-153 | a commit never makes stale what another open transaction has read from rows it locked |
| QuotaLocks.CommitKeeps | storage/metadata.go:208-216 | committing any transaction keeps accounts, quotas, locks and what every other open transaction has read |
| QuotaLocks.StepKeeps | storage/metadata.go:148-216 | every statement of every transaction keeps accounts, quotas, locks and readings |
| QuotaLocks.InvariantHolds | storage/metadata.go:148-216 | so they hold in every state of every interleaving, and a lock is held only by an open transaction that has taken it |
| QuotaLocks.QuotaSafety | storage/metadata.go:148-158 | in every interleaving a user's active file bytes never exceed the quota, and a user without documents has used at most the quota |
| QuotaLocks.CheckIsSave | storage/metadata.go:148-158 | the locked check refuses a save if and only if the serial transaction would find the quota exceeded at that moment |
| QuotaLocks.ChargeIsSave | storage/metadata.go:208-212 | what passes it fails later if and only if the serial transaction would leave the column's range |
| QuotaLocks.CommitIsSave | storage/metadata.go:208-216 | a save that commits has exactly the serial transaction's effect on the accounts at that moment |
| QuotaLocks.CommitIsDelete | storage/metadata.go:287-295 | so has a delete |
| QuotaLocks.CommitIsCharge | storage/document_store.go:43-54 | so has the creation of a document |
| FileServices.FileService.Upload | service/file_service.go:46-87 | metadata, bucket and result are those of UploadTx: duplicates store nothing, a failed store is compensated by a delete |
| FileServices.UploadExactly | service/file_service.go:70-86 | the result of an upload is exact: success with an active row of the caller, duplicate if and only if the hash was active before, its object stored otherwise; a store error if and only if a new content could not be stored; a metadata error changes nothing |
| FileServices.FileService.Delete | service/file_service.go:105-116 | the object goes only when the metadata delete says so and the store's removal succeeds; its failure is not reported |
| FileServices.RemoveExactly | service/file_service.go:105-116 | a delete succeeds if and only if the row is the caller's and active, and when its object is removed; otherwise nothing changes |
| FileServices.UploadOrNothing | service/file_service.go:79-84 | an upload either leaves files and bucket as they were or performs its save, and then stores its object unless the store failed with no compensation |
| FileServices.SharedExactly | service/file_service.go:118-127 | with hash prefixes distinct, an active row's object is shared if and only if its hash has a second active row |
| FileServices.UploadBreaksExactly | service/file_service.go:79-84 | while every active row's object is stored, an upload ends that if and only if it saves a new row, its store and its compensation both fail, and the key was not stored already |
| FileServices.RemoveBreaksExactly | service/file_service.go:105-116 | and a delete ends it if and only if the counter it reads is at most 1, the store's removal succeeds and another active row has the same object |
| FileServices.AgreementExactly | service/file_service.go:46-116 | over every run and every LIMIT 1 choice, all active rows' objects stay stored if and only if no call is such an upload or delete |
| FileServices.NothingElseStored | service/file_service.go:46-116 | if moreover no removal fails the bucket holds nothing but those objects, whatever LIMIT 1 returns |
| FileServices.UploadCarries | storage/metadata.go:177-194 | saves that hit the row holding the count keep the whole count on one row |
| FileServices.RemoveCarries | storage/metadata.go:264-285 | so do deletes, unless the counting row is deleted beside two or more others |
| FileServices.StoreAgreement | service/file_service.go:46-116 | over every run in which LIMIT 1 returns the counting row, which is not deleted beside two or more others, the count stays on one row, all active rows' objects are stored, and if no removal fails the bucket holds exactly those |
| FileServices.RemoveBreaks | storage/metadata.go:266-272 | a delete that reads a counter of 1 while the hash has another active row takes that row's object away |
| FileServices.LosingTheCarrierBreaks | storage/metadata.go:264-285 | after the counting row is deleted beside two or more others, the next delete of the hash breaks agreement for every LIMIT 1 choice |
| Documents.DocumentStore.CreateDocument | storage/document_store.go:25-56 | in one transaction adds one processing row without path and raises exactly its owner's bytes by the size, with no quota check, or changes nothing |
| Documents.DocumentStore.MarkDocumentReady | storage/document_store.go:110-120 | sets status and total of this row whatever its status, keeping an error message; all other rows and columns stay, and nothing happens if it is gone |
| Documents.DocumentStore.MarkDocumentFailed | storage/document_store.go:123-133 | sets status and message of this row whatever its status, keeping a page total; all other rows and columns stay, and nothing happens if it is gone |
| Documents.DocumentStore.UpdateOriginalPath | storage/document_store.go:231-237 | sets the path of this row and keeps all other rows and columns |
| Documents.DocumentStore.UpsertPage | storage/document_store.go:138-151 | the page's one row becomes the given one, new or not, and all others stay; refused if and only if the document is gone |
| Documents.DocumentStore.RegisterWebhook | storage/document_store.go:203-214 | adds the subscription and keeps all others; refused if and only if the document is gone |
| Documents.DocumentStore.DeleteDocument | storage/document_store.go:241-256 | if and only if the row is the caller's, removes and returns it with exactly its pages and webhooks; otherwise nothing changes |
| Documents.DocumentStore.FailStuckDocuments | storage/document_store.go:261-276 | exactly the rows processing since before the cutoff become failed with the timeout message; their other columns and all other rows stay |
| Documents.Watchdog.Sweep | worker/watchdog.go:51-61 | exactly the documents processing for more than the timeout become failed with the timeout message, all others stay as they are |
| Documents.AscendingMembers | storage/document_store.go:186-191 | ordering by page number lists every page once, in increasing order |
| Documents.AscendingInterval | storage/document_store.go:171-176 | the ordered members of an interval are the interval counted upwards |
| PageReads.PageReader.GetPageRange | service/document_service.go:175-229 | not found if and only if the document is missing or another user's, not ready if and only if it is not; otherwise, on any tables, the range error, no pages, exactly the rows of the clamped range in order, or those before the first that cannot be fetched |
| PageReads.PageReader.ListPages | service/document_service.go:241-268 | the same refusals; otherwise exactly all rows in order, or an error at the first that cannot be presigned and nothing else |
| PageReads.RangeExact | service/document_service.go:183-199 | a complete document yields pages max(start, 1) to min(end, N) once each in order, and the range error exactly when there are none |
| PageReads.RangesConcatenate | service/document_service.go:183-199 | adjacent ranges concatenate to the combined range, also where bounds are clamped or a half is empty |
| PageReads.WholeRangeIsListing | service/document_service.go:241-268 | the range 1 to N is the listing |
| FanOut.StepInv | worker/processor.go:110-133 | every statement of the loop or a goroutine keeps semaphore and wait group equal to the goroutines that hold a slot and are unfinished, and the first error set exactly when a page has recorded one |
| FanOut.Progress | worker/processor.go:117-135 | until the wait returns, the loop or some goroutine can take a step |
| FanOut.StepTakesWork | worker/processor.go:117-133 | every step takes from a bounded measure, so the fan-out terminates once each call returns |
| FanOut.JoinedOutcome | worker/processor.go:135-139 | after the wait every goroutine is done and the recorded error is nil exactly when all pages succeeded |
| FanOut.FanOutCorrect | worker/processor.go:110-139 | in every schedule at most five pages are extracted at once, there is no deadlock, at most 8 steps a page, and the error is nil exactly when all pages succeeded |
| FanOut.OutcomeByCalls | worker/processor.go:124-139 | in every schedule the error after the wait is nil if and only if every extraction, upload and row call of every page has succeeded |
| FanOut.PageByCalls | worker/processor.go:155-204 | a page ends in failure if and only if one of its calls failed, and in success only after all three were made |
| FanOut.FirstErrorKept | worker/processor.go:125-129 | the error kept is that of the page that recorded one first |
| FanOut.EntersExactly | worker/processor.go:110-122 | a waiting goroutine may start extracting if and only if fewer than five hold a slot |
| Worlds.PutOriginalKeeps | service/document_service.go:124-126 | storing the original of a document without a path disturbs no other document |
| Worlds.SetPathKeeps | service/document_service.go:131-132 | linking a stored original keeps the shared invariant, and a deleted document stays without a path |
| Worlds.MarkReadyKeeps | storage/document_store.go:110-120 | the unguarded update keeps the invariant when all rows are saved, also on a failed or deleted document |
| Worlds.MarkFailedKeeps | storage/document_store.go:123-133 | the unguarded update keeps the invariant at any time, also on a ready document |
| Worlds.SavePageKeeps | worker/processor.go:198-201 | saving a page row after its object is stored keeps every row pointing at its object |
| Worlds.DeleteKeeps | storage/document_store.go:241-256 | the cascade leaves no page or webhook without its document |
| Worlds.SweepKeeps | storage/document_store.go:261-276 | after a sweep no processing document is older than the timeout at the clock reading of the sweep |
| Extraction.JoinKeeps | worker/processor.go:135-142 | a run whose error is nil has a row for every page, so it may mark the document ready |
| Extraction.FanKeeps | worker/processor.go:155-204 | a page goroutine's object goes up before its row, and no statement of it disturbs another run, upload or cleanup |
| Extraction.ListCovers | service/document_service.go:271-281 | of a document that was ready when its pages were listed, the original and the list are all stored objects, and no upload has yet to store its original |
| Extraction.DeleteRowKeeps | service/document_service.go:278-282 | deleting the row before its objects leaves no row pointing nowhere |
| Extraction.RemoveNextKeeps | service/document_service.go:284-296 | the background loop removes only objects of the deleted document and keeps the rest of its list covering |
| Extraction.StepKeeps | worker/processor.go:56-151 | every step of every actor keeps the invariant of the whole system |
| ExtractionRuns.Reachable | worker/processor.go:56-151 | the invariant holds in every state of every interleaving |
| ExtractionRuns.ReadyIsComplete | worker/processor.go:110-144 | in every reachable state a ready document has page rows for exactly 1 to total_pages, at least one page, and its original's path |
| ExtractionRuns.RowsPointAtObjects | worker/processor.go:181-201 | in every reachable state every page row and every original path point at their stored objects |
| ExtractionRuns.FormattedKeysAreStored | worker/processor.go:182 | the formatted key of every row is a string key of the store, and distinct rows have distinct ones |
| ExtractionRuns.FormattedPathsAreStored | service/document_service.go:125-132 | so is that of every original path, and no other path or row has it |
| ExtractionRuns.StatusColumns | db/migrations/002_documents.sql:39-55 | processing has neither total nor message, failed has a message, and pages and webhooks belong to an existing document |
| Outcomes.RowChangesExactly | storage/document_store.go:109-133 | over every run a row's status columns change at failure marks, ready marks and timeouts only, each setting its own columns whatever the status was; the path changes when the upload links it, the rest never |
| Outcomes.RowsComeAndGo | storage/document_store.go:25-56 | a row comes only with the upload that creates it, as a processing row of that moment, and goes only with its owner's deletion |
| Outcomes.PagesComeAndGo | storage/document_store.go:138-151 | a page row comes only with the last call of its goroutine, with that page's key and size, and goes only with its document |
| Outcomes.WebhooksComeAndGo | storage/document_store.go:203-214 | a subscription comes only with a registration for an existing document and goes only with it |
| Outcomes.QueueGrows | service/document_service.go:136-139 | a task is in the queue if and only if the queue has accepted it from a completed upload |
| Outcomes.ObjectsComeAndGo | service/document_service.go:284-296 | document objects come only with uploads of originals and pages and go only with background removals |
| Outcomes.RunsComeAndGo | worker/processor.go:66-75 | a run comes only with a delivery that finds the document's row, and goes only with its mark or a crash |
| Outcomes.DeletionsMoveOn | service/document_service.go:271-296 | a deletion without a row ends at once; otherwise its loop takes the original and then the listed pages, going on after a failed removal |
| Outcomes.FailedCallFailsDocument | worker/processor.go:86-101 | a run one of whose calls has failed never marks its document ready, and its mark makes the document failed with its message, keeping total and path |
| Outcomes.DoomedByFailedCall | worker/processor.go:137-139 | and a run goes to fail only if one of its calls has failed |
| Outcomes.JoinDecides | worker/processor.go:135-142 | after the wait a run fails if a page's call has failed and marks all its pages otherwise |
| Outcomes.ReadyMark | worker/processor.go:141-144 | a ready mark sets the page count of the stored original and keeps message and path |
| Outcomes.FailedStoreFailsUpload | service/document_service.go:124-129 | an upload whose original could not be stored is never enqueued and only goes on to mark its document failed |
| ExtractionRuns.MarkReadyAfterAllRows | worker/processor.go:137-144 | a run about to mark a living document ready has the page count of the stored original and every page row saved |
| ExtractionRuns.RangeOfReadyDocument | service/document_service.go:175-229 | a request that reads the row, then the page rows, then the objects, with any steps of others in between, gets exactly the clamped range of a document still there at the end, no pages of one gone before the rows are read, and the range error exactly when the interval is empty |
| ExtractionRuns.CleanupLeavesOnlyFailures | service/document_service.go:284-296 | deleting a document listed as ready, with no run that may still store a page, leaves by the end of the loop only objects whose own removal has failed, in every interleaving |
| ExtractionRuns.CleanupIsComplete | service/document_service.go:271-299 | with no failed removal it leaves none |
| LateUploads.CleanupExactly | service/document_service.go:271-299 | every continuation that works off the list without a failed removal leaves no object if and only if no run may still store a page of the document at the moment its row is deleted |
| LateUploads.LateUpload | worker/processor.go:181-201 | a run that may still store a page when the row is deleted has a continuation that stores it after the cleanup has ended |
| LateUploads.ReachesUpload | worker/processor.go:117-133 | a page that has yet to be uploaded can reach its upload from every reachable state of the fan-out |
| LateUploads.CanBecomeReady | worker/processor.go:56-151 | from every reachable state an enqueued document whose original can be read can become ready, whatever has failed before |
| LateUploads.CanLeak | service/document_service.go:284-296 | from every such state a run of two deliveries and a deletion leaves a page object behind |
| LateUploads.LeakHappens | service/document_service.go:284-296 | one such run from the empty system, with a document of one page |
| ExtractionRuns.WatchdogBound | worker/watchdog.go:33-61 | with the last sweep at most interval ago, nothing has been processing longer than timeout + interval |
| ExtractionRuns.WatchdogBoundAsWired | main.go:79-83 | under the wiring in main, with a timeout of at least 2 minutes, that is 1.5 times the timeout |
| Outcomes.WatchdogBoundFromUpload | worker/watchdog.go:33-61 | counted from the upload that created it, nothing has been processing longer than timeout + interval |
| ExtractionRuns.NeverProcessingAgain | storage/document_store.go:109-133 | over every run a document never re-enters processing |
| ExtractionRuns.DeletedStaysDeleted | db/migrations/002_documents.sql:39-55 | over every run a deleted document never regains its row, a page or a webhook |

## Left out

- HTTP handlers, authentication, API keys, configuration, content types, page counts and percentages in listings, and
  the single-page `GetPage`: no property that spans operations.
- SHA-256, pdfcpu, MinIO, PostgreSQL and Asynq themselves: an arbitrary 64-digit hash, a page count that is a fixed
  property of the stored original, a map that may fail, tables as maps with atomic statements, and a queue that
  delivers an accepted task any number of times at any moment. A failed object upload is taken to store nothing.
- Webhook delivery and its queue: only the subscription rows and their cascade are modelled. The ownership check that
  precedes a registration is left out, so the model allows more registrations than the code.
- Columns that decide nothing here: file names, content types, hashes and sizes of documents, `updated_at`, URLs.
- Statement-level interleaving of reference counts: the canonical row is not locked, so `LedgerRuns` and
  `FileServices` take transactions, and each file service call, one at a time. Only the quota path is interleaved.
- SQL deadlock detection: in `QuotaLocks` a transaction may abort at any point instead.
- The document service's `Upload` and `DeleteDocument` and the worker's `HandleExtractPages` are not methods: other
  actors run between their statements, so each statement is an action of `Extraction`. Crashes end a run at any point.
- The endless ticker loops of the watchdog and of the limiter's cleanup: each tick is a step at an arbitrary moment,
  and the spacing of successful sweeps is a hypothesis of `WatchdogBound`.
- ZIP encoding, presigned URLs and downloads: the set of reachable objects stands for them. The status code of the
  download in `GetPageRange` is not checked by the code, so a page that the store answers with an error counts as
  reached there.
- StoreAgreement: hashes in a run are assumed to differ in their first 16 digits, all that an object key holds of them,
  and the discipline is sufficient only; the exact condition, without either, is `AgreementExactly`.
- GreedyIsOptimal: a positive limit or window is assumed; `NothingAdmittedWithoutLimit` covers every other setting.
- QuotaSafety: the users of a run exist from its start with nothing used, and quotas do not change. A negative quota
  bounds the file bytes by 0.
