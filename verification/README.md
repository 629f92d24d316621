# Verified model of the MCAP catalogue builder

A Dafny model of `mcap_catalog_builder`: the catalogue store and its reconciler, the atomic
publish, the tag-edit protocol, and the codecs and the ranged reader underneath. Code that
changes things step by step is modelled by classes and methods with loops; each of those is
proved equal to a function on immutable tables, and the promises of the program are theorems
about those functions over every input, every completion order, every run and every
interleaving. `dafny verify dfyconfig.toml` checks everything.

## How it is laid out

| files | content |
|---|---|
| `Common`, `IdTables`, `Bits` | options and results; tables with max-plus-one ids; Python's bit operators on naturals |
| `Varint`, `KeyParse`, `McapSummary`, `RangeReader` | the LEB128 loops, the key template and its guarded resolution, the summary join, the ranged reader |
| `Summary`, `Schema`, `Store`, `Reconcile`, `Tags`, `Identity` | the tables, their invariant `Valid`, the name-level view `FileAt`, and every committed operation as a function |
| `ViewMeaning`, `ReconcileMeaning` | what the operations answer in the source's own terms, column by column and listing by listing, without the functions that program and specification share |
| `MergeProofs`, `StoreProofs`, `OperationProofs`, `ReconcileProofs` | lemmas that lift those operations from surrogate ids to names |
| `ReconcileTheorems`, `Runs`, `CommitRuns`, `Convergence`, `Provenance` | the main theorems about one reconcile, about all runs of single commits, and about where rows come from |
| `Catalog`, `KeyOrder`, `TagEdits`, `CarryForward`, `Rebuild` | the program's own form: a connection with a working copy, a committed copy and seven caches; tag edits; the rebuild |
| `Worker`, `WorkerTheorems` | the worker loop, whose commits are exactly its queue items' own events, and what follows from what the queue holds |
| `Wal`, `Publish`, `PublishTheorems` | a database file with its log; the served and temporary files, one file-system step at a time; what every step shows |
| `TagProtocol`, `TagTheorems` | handlers, queue, worker, clock and semaphore as a transition system |

Ids depend on the order in which files happen to be processed, so the theorems speak of the
*name-level view*: `FileAt(t, d)` is what the catalogue shows for the identity `d` (customer,
site, robot, source, date, filename), with its topics by name and its embedded tags. Listing
times and `cataloged_at_ns` are not part of the view, because a skipped file keeps the old ones.
`Valid` gathers the UNIQUE and foreign key constraints together with what the writer adds to
them: the customer, site and robot hierarchy, sorted topic sets, and one decoded count per member.

## What turned out to have conditions

* **A reconcile shows the source** if and only if every row whose etag already matches its
  listing was faithful to that object (`ReconcileTheorems.ReconcileShowsSource`). Over an object
  store whose etags never recur per key, every reachable state is faithful
  (`Convergence.RescanRestoresBucket`, and for the worker's own queue
  `WorkerTheorems.LoopRestoresBucket`).
* **A row never stands beside its own failure record** for keys without a leading slash, whatever
  the worker's queue holds (`WorkerTheorems.LoopExclusive`). One
  extract keeps this if and only if it fails, or its effective key is canonical, or its canonical
  key had no failure record (`Runs.ApplyExclusiveExact`); the two slash spellings of one file do
  break it (`Runs.LeadingSlashBreaksExclusion`).
* **Publishing is not always atomic.** The branch for an unusable served database deletes the old
  `-wal` before the rename. `PublishTheorems.LostFrameShown` gives files and a gate for which one
  step shows neither the old catalogue nor the new one. No build and no course of the gate can
  lose frames if and only if there is no served file or every frame of its log is already in the
  main file (`PublishTheorems.NeverLosesExact`), which can be read off the files beforehand; a
  gate that does not raise loses nothing either. The docstring says the served database is never
  observed torn; the code is followed.
* **delete_by_key trusts an unguarded parse.** Python's `$` also matches before a final newline,
  so the event for `key + "\n"` deletes the row of `key` (`OperationProofs.DeleteByKeyView`). The
  docstring of `rebuild_hive_key` calls it the exact inverse of the parse; `KeyParse.ParseExact`
  gives the exact relation, and `KeyParse.ResolveExact` shows that the guard restores it.
* **A second reconcile reads nothing** if and only if every listed object was healthy; failed
  objects are read again each time (`ReconcileTheorems.SecondReconcileReads`).
* **A 503 by time-out can still be applied** if and only if the worker had already applied the
  edit, or had passed its deadline check and not written yet (`TagTheorems.GaveUpExact`), and with
  the default settings such a run exists (`TagTheorems.TimedOutYetApplied`).
* **The schema alone does not make lookup by names unique**; the writer's hierarchy does
  (`Identity.SchemaAloneAmbiguous`, `Identity.JoinExact`).

## Model

| member | source | states |
|---|---|---|
| ReconcileTheorems.ReconcileShowsSource | mcap_catalog_builder/reconcile.py:61-164 | from any valid catalogue, over a quiescent source with distinct identities and in any completion order, a reconcile leaves exactly the source's own view, if and only if the rows it may skip were faithful |
| ReconcileTheorems.IncrementalEqualsRebuild | mcap_catalog_builder/reconcile.py:74-148 | an incremental run and a rebuild from the empty catalogue agree at every identity |
| ReconcileTheorems.OrderIrrelevant | mcap_catalog_builder/reconcile.py:110-124 | any two completion orders of the same summaries leave the same view, failure records and tally |
| ReconcileTheorems.SharingExact | mcap_catalog_builder/db.py:235-262 | two rows share a topic set exactly when their topics have the same names and schemas, so sharing is a fact of the view |
| ReconcileTheorems.SharingInOrders | mcap_catalog_builder/reconcile.py:110-124 | which files share a topic set does not depend on the completion order |
| ReconcileTheorems.GoneFromOld | mcap_catalog_builder/reconcile.py:126-148 | the sweep deletes exactly the old rows of unlisted identities, in every completion order |
| ReconcileTheorems.SecondReconcileReads | mcap_catalog_builder/reconcile.py:95-108 | a second run over the unchanged source, from the stamped tables the first one left, opens no summary if and only if every object was healthy |
| ReconcileTheorems.SecondReconcileChangesNothing | mcap_catalog_builder/reconcile.py:80-162 | then whatever it leaves is what it found, with a new build stamp |
| ReconcileProofs.ReconcileView | mcap_catalog_builder/reconcile.py:91-148 | what one reconcile shows at each identity, also when an object vanishes between listing and read: its row stays until the next pass |
| ReconcileProofs.SweepView | mcap_catalog_builder/reconcile.py:138-148 | a sweep empties the swept identities and leaves rows and both tag layers of all others |
| ReconcileMeaning.TallyExact | mcap_catalog_builder/reconcile.py:95-147 | catalogued counts the listings that resolve, changed and read healthy, skipped those that resolve unchanged, failed all the others, deleted the old rows of unlisted identities |
| ReconcileMeaning.StampExact | mcap_catalog_builder/reconcile.py:150-158 | the stamp holds those numbers, counts builds up from one, and says "partial" exactly when a listing failed |
| ReconcileMeaning.RecordsExact | mcap_catalog_builder/reconcile.py:94-124 | every failure record afterwards, key by key: a read object's own outcome, else an unparseable listing, else what was there before |
| OperationProofs.WriteFileRowView | mcap_catalog_builder/builder.py:151-238 | the per-file transaction shows the object when it is healthy and nothing when it is not, touches no other identity, keeps ids and user tags, and records exactly the right failure |
| OperationProofs.WriteErrorExact | mcap_catalog_builder/builder.py:170-214 | the transaction fails exactly when channel counts do not sum to the stated total, an integer does not fit, or a tag key repeats |
| OperationProofs.CommitRowView | mcap_catalog_builder/builder.py:181-227 | a committed row shows what the object says, whatever ids it was given |
| ViewMeaning.TransactionExact | mcap_catalog_builder/builder.py:151-238 | the row is there exactly when counts sum, integers fit and tag keys differ, with every shown column from the object, and the failure record says which of these failed |
| ViewMeaning.RowExact | mcap_catalog_builder/builder.py:181-225 | every stored column, has_error included, from the listing and the summary |
| ViewMeaning.HasErrorExact | mcap_catalog_builder/builder.py:116-118 | has_error means no messages, or a tag "error" or "has_error" whose value is "1", "true" or "yes" up to ASCII case, character by character |
| ViewMeaning.PublishedExact | mcap_catalog_builder/builder.py:159-225 | when a source object is shown, and every column it shows |
| OperationProofs.QuarantineView | mcap_catalog_builder/builder.py:128-138 | quarantine empties the identity and records its failure, and touches nothing else |
| OperationProofs.ApplyFetchedView | mcap_catalog_builder/builder.py:279-296 | a key without an identity leaves its failure record and nothing else; an extract makes its identity show the object or nothing, unchanged when it vanished |
| ViewMeaning.ExtractExact | mcap_catalog_builder/builder.py:279-296 | apply_extract branch by branch, with the record each leaves |
| ViewMeaning.CatalogExact | mcap_catalog_builder/builder.py:322-343 | the event path branch by branch: skipped on the etag alone, else the object itself |
| ViewMeaning.CatalogNothing | mcap_catalog_builder/builder.py:312-319 | an object gone before its HEAD leaves nothing, a key without an identity its failure record |
| ViewMeaning.DeleteExact | mcap_catalog_builder/builder.py:354-375 | what a delete event empties, clears and answers |
| OperationProofs.CatalogTargetSkips | mcap_catalog_builder/builder.py:322-327 | the event path skips an unchanged etag whatever a read would give |
| OperationProofs.CatalogTargetApplies | mcap_catalog_builder/builder.py:329-343 | otherwise it is one extract, except that a missing object is quarantined |
| OperationProofs.DeleteByKeyView | mcap_catalog_builder/builder.py:354-375 | a delete event empties an identity exactly for its canonical key, or that key plus one newline |
| MergeProofs.MergeConservesTotal | mcap_catalog_builder/builder.py:159-178 | merging duplicate topics conserves the message total |
| MergeProofs.MembersExact | mcap_catalog_builder/builder.py:170-173 | members come sorted by topic id, once each, zipped with their own counts |
| MergeProofs.MergeAgrees | mcap_catalog_builder/builder.py:159-168 | the merge by ids is the merge by names, and dictionaries only grow |
| StoreProofs.WrittenTopics | mcap_catalog_builder/builder.py:170-200 | the reader's join of members with decoded counts gives back the summary's topics |
| Provenance.RowExact | mcap_catalog_builder/builder.py:159-204 | in every state of every run each row is the image of one healthy summary: its view, one count per member in topic id order, and the sum equal to that summary's message count |
| McapSummary.SummaryFromStream | mcap_catalog_builder/mcap_summary.py:38-69 | one entry per channel in order, count zero when absent, empty schema when unknown, error without statistics |
| McapSummary.TopicShown | mcap_catalog_builder/builder.py:159-168 | a topic is shown exactly when a channel carries it, with its first schema and the messages of all its channels |
| Runs.RunValid | mcap_catalog_builder/schema.sql:46-156 | every constraint and the writer's invariant hold after every commit of every run |
| Runs.IdConstant | mcap_catalog_builder/builder.py:181-204 | a file keeps its id from insert to delete, and a reused id starts without user tags |
| Runs.OverrideSurvives | mcap_catalog_builder/schema.sql:135-156 | a user tag stays as it is through every event that does not edit it, while the row lives |
| Runs.LastEditWins | mcap_catalog_builder/db.py:288-334 | a key last set shows that value as an override and a key last unset while embedded stays hidden, whatever is catalogued since |
| Runs.ApplyExclusiveExact | mcap_catalog_builder/builder.py:216-236 | when one extract keeps rows and failure records apart, exactly |
| Runs.LeadingSlashBreaksExclusion | mcap_catalog_builder/builder.py:92-107 | the two slash spellings of one file leave its row beside its failure record |
| Runs.RunExclusive | mcap_catalog_builder/builder.py:227-236 | over every run of commits whose keys come from an object store without leading slashes, no file is both catalogued and failed |
| CommitRuns.ExtractIsRun | mcap_catalog_builder/builder.py:141-148 | one extract is two commits, its names and then its row or quarantine, and none when it vanished |
| CommitRuns.CatalogIsRun | mcap_catalog_builder/builder.py:312-343 | the event path is a failure record, or the names and then what is left |
| CommitRuns.RescanIsRun | mcap_catalog_builder/reconcile.py:61-162 | a rescan is the run of its single commits up to the build stamp, so a prefix of them is what a crash leaves |
| Convergence.RunCoherent | mcap_catalog_builder/builder.py:299-343 | through stale, repeated and reordered events a row with the current etag shows the current object |
| Convergence.RescanRestoresBucket | mcap_catalog_builder/reconcile.py:61-148 | after any run of stale, repeated and reordered store events one complete rescan of the quiescent bucket restores exactly the bucket's view |
| Catalog.Caches.Load | mcap_catalog_builder/db.py:160-177 | the caches equal their tables |
| Catalog.Caches.CompositeIds | mcap_catalog_builder/reconcile.py:49-58 | the id tuple from the caches is the one from the tables |
| Catalog.ResolveNamed | mcap_catalog_builder/db.py:180-185 | cache hit, ignored insert or new row all give the table's own id and cache it, also when the cache lacks a row the table has |
| Catalog.ResolveSet | mcap_catalog_builder/db.py:235-262 | the cache, then the table, then an insert that brings its members; unsorted or repeated topics are refused |
| Catalog.Connection.ResolveIds | mcap_catalog_builder/builder.py:141-148 | the four dimension ids, committed |
| Catalog.Connection.QuarantineExisting | mcap_catalog_builder/builder.py:128-138 | delete and failure record in one commit |
| Catalog.Connection.WriteRow | mcap_catalog_builder/builder.py:151-238 | commit, or roll back, reload the caches and quarantine |
| Catalog.Connection.ApplyOne | mcap_catalog_builder/builder.py:279-296 | apply_extract leaves what the specification says on all its branches, committed |
| Catalog.Connection.CatalogOne | mcap_catalog_builder/builder.py:299-343 | catalog_object leaves what the specification says, committed |
| Catalog.Connection.DeleteKey | mcap_catalog_builder/builder.py:354-375 | delete_by_key leaves what the specification says and tells whether a row went |
| Catalog.Connection.FullReconcile | mcap_catalog_builder/reconcile.py:61-164 | classification, reads applied in any order, sweep and stamp leave what the specification says; the tally and the stamp count the listing itself |
| Catalog.Connection.UpdateFileTags | mcap_catalog_builder/db.py:288-334 | the upserts and the unset loop leave exactly the specified override layer; a set for a file that does not exist is refused and undone |
| Worker.WorkerLoop | mcap_catalog_builder/__main__.py:93-131 | the loop commits exactly its items' own events, in order, up to the first stop; what it leaves is committed, valid, with caches equal to their tables and no id for two names |
| Worker.HandleWork | mcap_catalog_builder/__main__.py:111-129 | one turn performs its item's own operation: a stable object is catalogued, an unstable one dropped, a key deleted, a rescan stamped, an edit applied and its event set once |
| WorkerTheorems.WorkStore | mcap_catalog_builder/reconcile.py:95-108 | the events of an item over an object store, rescans included, carry keys of that store with their own identities |
| WorkerTheorems.LoopExclusive | mcap_catalog_builder/__main__.py:93-131 | whatever such a queue holds, after every commit no file is both catalogued and failed |
| WorkerTheorems.HandledCoherent | mcap_catalog_builder/__main__.py:93-131 | through any such queue of stale items a row with the current etag shows the current object |
| WorkerTheorems.LoopRestoresBucket | mcap_catalog_builder/__main__.py:93-131 | a loop whose last item is a rescan of the quiescent bucket leaves exactly the bucket's view |
| WorkerTheorems.CatalogWorkShows | mcap_catalog_builder/__main__.py:119-122 | a stable object with a new etag and a healthy read is shown column by column |
| WorkerTheorems.LastCatalogShows | mcap_catalog_builder/__main__.py:93-131 | the same for the last item of a loop, over whatever the items before it left |
| WorkerTheorems.LastDeleteEmpties | mcap_catalog_builder/__main__.py:125-126 | a loop whose last item deletes a canonical key leaves its identity empty |
| WorkerTheorems.EditWorkShows | mcap_catalog_builder/__main__.py:115-117 | an edit in time shows its set keys as overrides and hides its unset ones; a late, failed or unaddressed one changes nothing |
| WorkerTheorems.IdleWorkKeeps | mcap_catalog_builder/__main__.py:118-131 | an unstable object, an unknown event and a stop change nothing |
| Worker.StaleCacheAliases | mcap_catalog_builder/builder.py:227-231 | a cache that survived a rollback would hold one id for two names |
| Identity.JoinExact | mcap_catalog_builder/db.py:265-285 | in every valid state the by-name join matches exactly the row of the id tuple |
| Identity.LookupFileId | mcap_catalog_builder/db.py:265-285 | any matching row is the one file of that identity |
| Identity.SchemaAloneAmbiguous | mcap_catalog_builder/schema.sql:57-133 | the schema's unique and foreign keys alone allow two rows for one set of names |
| Tags.EditExact | mcap_catalog_builder/db.py:288-334 | an edit makes the effective tags (old + set) minus unset, for that file only |
| Tags.EditedRows | mcap_catalog_builder/db.py:311-334 | the override rows after an edit: masked, deleted, set or untouched, row by row |
| Tags.EffectiveExact | mcap_catalog_builder/schema.sql:162-170 | the view at one (file, key) from the two tables |
| Tags.EffectiveOnce | mcap_catalog_builder/schema.sql:162-170 | the two SELECTs of the view never yield the same (file, key) |
| TagEdits.ReadEffective | mcap_catalog_builder/tag_ipc.py:123-130 | the rows read back are exactly the file's effective tags, in ascending key order and each key once |
| KeyOrder.InsertExact | mcap_catalog_builder/tag_ipc.py:123-126 | a row put in key order keeps the order strict and adds that row only |
| KeyOrder.BeforeExact | mcap_catalog_builder/tag_ipc.py:123-126 | the order of keys: a proper prefix first, otherwise the first character that differs |
| TagEdits.HandleTagEdit | mcap_catalog_builder/tag_ipc.py:103-136 | the event is set exactly once on every path, and the tables change only before the monotonic deadline, for an existing file, with the specified effect at the wall-clock time |
| TagEdits.ReportedTags | mcap_catalog_builder/tag_ipc.py:122-131 | the reported tags are the old effective tags plus the set ones, without the unset ones |
| CarryForward.CarryTags | mcap_catalog_builder/publish.py:196-226 | every identity of the new build gets exactly its old overrides, each old row is carried or dropped once, and no INSERT conflicts |
| CarryForward.CarriesUnique | mcap_catalog_builder/publish.py:147-162 | the carry-forward promise fixes the carried tables completely |
| Rebuild.BuildTemp | mcap_catalog_builder/publish.py:350-360 | the rebuilt catalogue keeps the user tags of surviving files, has a build id above the old one and is refused exactly when unstamped; over a quiescent source with distinct identities it shows the source's own view |
| Rebuild.ReconcileDrops | mcap_catalog_builder/builder.py:206-214 | a reconcile leaves only user tags that were there, with the same value, mask and time, and stamps the build last |
| Wal.CopyAllKeepsReplay | mcap_catalog_builder/publish.py:277-312 | replaying the WAL after any partial checkpoint gives the same database |
| Wal.FullCopyReplays | mcap_catalog_builder/publish.py:271-274 | after a complete checkpoint the main file alone is the whole database |
| Wal.NewestFrameShown | mcap_catalog_builder/publish.py:14-16 | a page shows the newest frame that holds it |
| Publish.Files.Gate | mcap_catalog_builder/publish.py:277-312 | the retry loop takes exactly the specified steps and ends within its window |
| Publish.Files.BuildAndPublish | mcap_catalog_builder/publish.py:347-423 | from any files on disk: which of the five outcomes, in the fields of the build and the attempts of the gate; what is served and what is left afterwards; and the files after every step |
| Publish.OutcomeExact | mcap_catalog_builder/publish.py:255-268 | published exactly when the build finished, was stamped, its checkpoint was complete and the gate did not stay busy; and each abort exactly |
| Publish.VerdictExact | mcap_catalog_builder/publish.py:294-312 | the gate gives up exactly when an attempt after its window is still busy, and raises exactly when an attempt within it raises |
| Publish.GateKeepsReplay | mcap_catalog_builder/publish.py:277-312 | whatever the gate did, the old catalogue is in the main file alone once it cleared, and in file and log together otherwise |
| PublishTheorems.PublishExact | mcap_catalog_builder/publish.py:323-423 | an abort leaves the old catalogue, success the complete new one, and the steps switch once from one to the other if and only if the unusable-database branch loses no frames |
| PublishTheorems.NeverLosesExact | mcap_catalog_builder/publish.py:384-404 | no build and no course of the gate can lose frames if and only if the served log holds nothing that the main file lacks |
| PublishTheorems.LostFrameShown | mcap_catalog_builder/publish.py:391-414 | an input for which one step shows neither catalogue |
| PublishTheorems.CrashedRuns | mcap_catalog_builder/publish.py:347-420 | through any number of runs, each starting from the files the one before left after any of its steps, a fresh open finds the first catalogue or one complete catalogue published since, as long as each run finds nothing pending or its gate does not raise |
| TagProtocol.RunInv | mcap_catalog_builder/tag_ipc.py:232-266 | over all interleavings each queued edit is in one place, in order, and permits are conserved |
| TagTheorems.SignalledOnce | mcap_catalog_builder/tag_ipc.py:103-136 | each edit taken off the queue has its event set exactly once, not pending, in queue order |
| TagTheorems.RepliesTrue | mcap_catalog_builder/tag_ipc.py:256-264 | 200 means applied exactly once; 404, an expired 503 and a refusal mean never applied |
| TagTheorems.RepliesExact | mcap_catalog_builder/tag_ipc.py:256-264 | every answer but a time-out is the status's own code: 200 exactly for success, 404, 503 and 500 exactly for the others |
| TagTheorems.StatusExact | mcap_catalog_builder/tag_ipc.py:111-134 | what sets each status, and that nothing else does |
| TagTheorems.CountsExact | mcap_catalog_builder/tag_ipc.py:122-136 | one action writes and one action signals |
| TagTheorems.HandlerExact | mcap_catalog_builder/tag_ipc.py:236-266 | what a handler takes and gives: permit or refusal, deadline, wait, permit back |
| TagTheorems.SuccessReachable | mcap_catalog_builder/tag_ipc.py:257-258 | a run exists in which an applied edit is answered 200 |
| TagTheorems.AppliedInTime | mcap_catalog_builder/tag_ipc.py:111-122 | an edit is applied only after a deadline check it passed |
| TagTheorems.GaveUpWhileQueued | mcap_catalog_builder/tag_ipc.py:248-254 | a handler that timed out while its item was queued never sees it applied |
| TagTheorems.GaveUpExact | mcap_catalog_builder/tag_ipc.py:46-62 | when a timed-out edit can still turn up applied, exactly |
| TagTheorems.TimedOutYetApplied | mcap_catalog_builder/tag_ipc.py:53-62 | the residual case exists with the default settings |
| TagTheorems.PermitBound | mcap_catalog_builder/tag_ipc.py:321-324 | a queued unexpired edit still has its handler, so at most `max_pending` are queued, and no release exceeds the bound |
| RangeReader.Reader.ReadInto | mcap_catalog_builder/s3_storage.py:93-114 | the buffer holds the object's own bytes, short only at the end or the header window; a request is allowed if and only if the position is not negative |
| RangeReader.Reader.Seek | mcap_catalog_builder/s3_storage.py:88-91 | the cursor goes where a plain file's goes |
| RangeReader.Reader.ReadAll | mcap_catalog_builder/s3_storage.py:93-114 | reading until the end terminates with exactly the rest of the object |
| RangeReader.Reader.Perform | mcap_catalog_builder/s3_storage.py:88-114 | any sequence of seeks and reads gives what a plain in-memory file gives, with allowed ranges only |
| RangeReader.PlainReadExact | mcap_catalog_builder/s3_storage.py:96-114 | the plain file byte by byte |
| Varint.EncodeVarint | mcap_catalog_builder/varint.py:8-20 | the mask-and-shift loop is LEB128 by division, and refuses negatives |
| Varint.DecodeVarint | mcap_catalog_builder/varint.py:23-38 | the or-and-shift loop is decoding by division, and refuses truncated input and offsets past the end |
| Varint.DecodeEncoded | mcap_catalog_builder/varint.py:23-38 | decoding at an encoded value inside any bytes gives the value and the offset past it |
| Varint.EncodedBytes | mcap_catalog_builder/varint.py:8-20 | the i-th byte holds the i-th seven bits, and every byte but the last its high bit |
| Varint.TruncatedExact | mcap_catalog_builder/varint.py:31-32 | decoding fails exactly when every byte from the offset on has its continuation bit |
| Varint.PrefixFree | mcap_catalog_builder/varint.py:8-20 | no encoding is a proper prefix of another |
| Varint.EncodingMinimal | mcap_catalog_builder/varint.py:8-20 | no accepted byte string for a value is shorter than its encoding |
| Varint.EncodeCountsBlob | mcap_catalog_builder/varint.py:41-43 | the join, with the error for a negative count |
| Varint.DecodeCountsBlob | mcap_catalog_builder/varint.py:46-53 | the blob loop, with its error |
| Varint.BlobRoundTrip | mcap_catalog_builder/varint.py:41-53 | blob decode inverts blob encode for every list |
| KeyParse.ParseExact | mcap_catalog_builder/keyparse.py:15-44 | the parse accepts exactly the rebuilt key or the rebuilt key plus a newline, after leading slashes |
| KeyParse.ResolveExact | mcap_catalog_builder/builder.py:92-107 | the guarded resolver accepts exactly the rebuilt keys, up to leading slashes |
| KeyParse.RebuildInjective | mcap_catalog_builder/keyparse.py:35-44 | distinct well-formed identities have distinct keys |
| KeyParse.KeyOfIdentity | mcap_catalog_builder/builder.py:92-107 | without leading slashes the identity determines the key |
| KeyParse.LeadingSlashAliases | mcap_catalog_builder/builder.py:106-107 | with a leading slash two accepted keys share an identity |
| KeyParse.TemplateExact | mcap_catalog_builder/keyparse.py:35-44 | the template, letter by letter |
| KeyParse.WellFormedExact | mcap_catalog_builder/keyparse.py:15-22 | the fields and the file name the template accepts |
| KeyParse.StripExact | mcap_catalog_builder/keyparse.py:31 | stripping takes all leading slashes and nothing else |

## Left out

- SQLite itself: SQL text, PRAGMAs, indexes and busy handling. Tables are maps from their natural keys, a transaction is a working copy restored on failure, a WAL is a list of page frames.
- The UNIQUE constraint on lookup tables holds by construction of the maps; that ids are unique, and the foreign keys, are proved.
- Row ids come from an unbounded max-plus-one; SQLite's behaviour at 2^63 - 1 is not modelled.
- SHA-256 and JSON in the topic-set fingerprint: the set is keyed by its member list, which assumes the fingerprint is injective.
- `derive_tags` returns nothing today; here it is an arbitrary list of pairs per summary, so that the tag theorems have content.
- Wall-clock columns (`cataloged_at_ns`, `failed_at_ns`) and `builder_version`; failure texts are reduced to their kind and, for read errors, an arbitrary string.
- `synth_etag`, `scan_disk`, local `s3_key` overrides beyond the resolver, `retry.py`, `watcher.py`, `s3_producer.py`, the GCS reader, CLI, logging and signals.
- `file_metrics` and `file_metric_status`: declared but never written.
- The MCAP parser and the storage clients: a listing, a stat and a read result are inputs; a read sees one version of an object.
- An exception in the middle of a reconcile is not a branch of `FullReconcile`; its commits form a run, every prefix of which the run theorems cover.
- HTTP framing, JSON validation, and the socket's life in `tag_ipc.py`.
- The single writer (`flock`) is an assumption of the store and publish models.
- A reader that keeps the old file open across the rename, shared memory files, and SQLite's own salt check of stale frames: every step is judged by a fresh open that replays all frames.
- `fsync` and power loss.
- Whether a served file is a database at all: an unusable file is one whose checkpoint raises, and its view is still its pages with its frames.
- What `build_fn` writes at the temporary path step by step: its result is one step, and a crash inside it may leave anything there.
- Publish.Files.BuildAndPublish: page contents are opaque, so that the published pages are the tables of `Rebuild.BuildTemp` is by construction of the temporary file, not a theorem.
- RangeReader.Reader.ReadInto: what a store answers to the malformed range of a negative position is an arbitrary body; the object has the listed size and does not change while it is read.
- Varint.DecodeVarint: offsets are naturals; a negative one would index from the end in Python, and no caller passes one.
- Catalog.Connection.UpdateFileTags: requires that tag rows belong to files, which the foreign keys guarantee.
