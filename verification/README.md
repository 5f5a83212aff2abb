# Verified model of the macOS File Provider state engine

The desktop app and the macOS File Provider extension of this repository are two
processes over one SQLite file. The app writes a journal of remote events; the
extension reads it through sync anchors; both share one table of records that was
once a set of legacy files. This project models that engine, the protocols around
it and the self-contained algorithms it relies on, in Dafny 4.11, and proves what
they are for. `dafny verify dfyconfig.toml` checks everything.

| file | what it models |
|---|---|
| `Journal.dfy` | one journal transaction: import once, allocate sequences, prune, deduplicate, consume receipts |
| `JournalHistory.dfy` | what a transaction keeps of one drive's journal, relative to everything it ever held |
| `CommitSuccess.dfy` | exactly when a transaction succeeds, and what it then records |
| `JournalRuns.dfy` | whole runs of commits, acknowledgements and receipts over all drives |
| `Outbox.dfy` | delivery of the inventory outbox to the journal, with crashes anywhere |
| `EventLogs.dfy` | the removal of the legacy event logs over whole runs |
| `ChangeFeed.dfy` | the snapshot, paging and expiry of the change feed, and which container an event touches |
| `AnchorExpiry.dfy` | what becomes of an issued anchor while the journal goes on |
| `WorkingSetReader.dfy` | one working-set reader interleaved with any commits |
| `ChangeEnumerator.dfy` | one `enumerateChanges` callback driving an observer |
| `LegacyCleanup.dfy` | the import-once record store and the removal of legacy files |
| `CounterMode.dfy`, `ChunkedUpload.dfy` | AES-256-CTR upload encryption and the chunk loop |
| `TimeFlow.dfy` | both copies of the time-flow decoder |
| `Identities.dfy`, `Recovery.dfy` | identity maps, eviction, and rebuilding identities and pins |
| `Conflicts.dfy` | the upload-conflict protocol |
| `PendingMonitor.dfy` | the coalescing monitor for pending items |
| `Redirects.dfy`, `Shortcuts.dfy` | both shortcut resolvers, over one generic rewriting loop |
| `PinnedRoots.dfy` | the depth-sorted single pass over pinned candidates |

## How it is modelled

- A SQLite transaction is one atomic step; anything may happen between two
  transactions. Code that mutates fields or arrays is a class or a method with
  loops, proved equal to a specification function; the lemmas are about those
  functions and about runs of them.
- The clock, the network, short reads, failing inserts, failing server calls and
  crashes are parameters or nondeterministic steps. No property assumes a clock
  that runs forward.
- The block cipher is any function on 16-byte blocks, percent-decoding
  (`canonicalURI`) any function on strings, applied only where the code applies it.
- Limits of the source (100,000 retained events, 100 events a page, 32 redirects)
  are parameters of the specifications and default arguments of the methods, so
  the theorems hold for every limit. `pageSize` and `chunkSize` are at least 1.
- Integers are unbounded except where width matters: the 64-bit addend of the
  counter, its 16 bytes, and the overflow check on sequences.

## What the proofs turned up

- `floor <= latest` is not unconditional: the cutoff defaults to 0, so a legacy log
  with only negative timestamps puts the floor above the head
  (`NegativeLegacyBreaksFloor`). `CommitFloorExactly` gives the exact condition for
  any commit in terms of what is there before it.
- A legacy file written after its namespace was imported is lost by the next
  cleanup exactly when it is recognised and differs from its record
  (`LateWriteSurvivesExactly`).
- The deduplication token protects a delivery exactly until it is acknowledged
  (`RetryIsNoOpWhileOpen`). Exactly-once delivery therefore needs one deliverer per
  drive at a time: a second one that loaded the same row earlier would append it
  again after the first acknowledged it.
- The conflict record is read with `try?`, twice. A failed read before the branch
  makes one upload name the callback's own version instead of the held base
  (`FailedReadBypassesBase`). A failed read in the catch block is worse: it saves that
  version as the new base, and the next retry overwrites a newer online version
  (`FailedCatchReadOverwrites`). `SafeReadDecides` gives the exact condition.
- A delete has an empty target, which stands for the drive's own folder; for a drive
  directly under `cloudreve://my` every delete is in the root's feed
  (`EmptyTargetInRootFeed`).
- An event log written after its drive was imported is deleted unread
  (`LateLogSurvivesExactly`).
- `modifyItem` consumes a set action before it looks at the changed fields, so a
  metadata-only callback uses the action up without acting on it (`ActionActedOn`).
- The Rust decoder accepts the scrambled form of a bare time bucket as an empty
  address, the Swift decoder does not; they differ on nothing else (`CopiesDisagree`).
- `mergeRecoveredIdentities` keeps the deleted record, so a recovered identity can
  be known at two URIs (`MergeAmbiguity`). Loading can leave a URI pointing at an
  identifier that has moved on; only the direction from identifier to URI is an
  invariant. `recordIdentity` stores the identifier as given, while lookups
  canonicalise it; the model does the same.

## Model

| member | source | states |
|---|---|---|
| `Journal.StateDb.CommitEvents` | crates/cloudreve-sync/src/fileprovider_db.rs:235-295 | the transaction over the mutable tables and the record array: on success tables and stamped records are those of the specification, on any failure journal, head, deliveries and receipts are as before |
| `Journal.StateDb.CommitDrive` | crates/cloudreve-sync/src/fileprovider_db.rs:249-288 | import, stamping and pruning of one drive against the specification |
| `Journal.StateDb.ImportLegacy` | crates/cloudreve-sync/src/fileprovider_db.rs:252-268 | the insertion loop over the legacy log, which refuses a second event at one sequence |
| `Journal.StateDb.AppendRecords` | crates/cloudreve-sync/src/fileprovider_db.rs:269-275 | the loop that stamps the records in place and inserts them, with the overflow check |
| `Journal.StateDb.ConsumeReceipts` | crates/cloudreve-sync/src/fileprovider_db.rs:289-292 | the compare-and-delete loop over the receipts |
| `Journal.StateDb.AcknowledgeDelivery` | crates/cloudreve-sync/src/fileprovider_db.rs:217-222 | removes the token and nothing else |
| `JournalHistory.InsertAllExactly` | crates/cloudreve-sync/src/fileprovider_db.rs:264-264 | the import insertions succeed iff no sequence is taken twice or refused; then the table holds exactly what it held and the imported events |
| `JournalHistory.AppendClimbs` | crates/cloudreve-sync/src/fileprovider_db.rs:271-275 | under any clock the records get strictly growing sequences above the head, in order, unchanged but for the sequence, and the table gains exactly them |
| `JournalHistory.StampsFollowClock` | crates/cloudreve-sync/src/fileprovider_db.rs:271-274 | each sequence is the clock's reading if that lies above the sequence before it, else the next one |
| `JournalHistory.ImportBoundsAreExact` | crates/cloudreve-sync/src/fileprovider_db.rs:265-268 | after the import floor and head are the oldest and newest sequence of the log, and both 0 if it is empty |
| `JournalHistory.NthNewestSplits` | crates/cloudreve-sync/src/fileprovider_db.rs:278-279 | the cutoff query finds the stored sequence with exactly the retention number above it, and finds none iff no more than that are stored |
| `JournalHistory.PruneKeepsNewest` | crates/cloudreve-sync/src/fileprovider_db.rs:276-288 | at most the retention number is left (exactly that if there were more), all newer than everything removed; everything removed is at or below the new floor; the floor never goes down |
| `JournalHistory.CommitFloorExactly` | crates/cloudreve-sync/src/fileprovider_db.rs:249-288 | where floor <= latest held before, a commit keeps it iff the head ends at zero or above (by its start, the number of records and the clock readings) or the events then stored outnumber the retention; all of it known before the call |
| `JournalHistory.EmptyCommitFloorExactly` | crates/cloudreve-sync/src/fileprovider_db.rs:252-288 | the empty commit to a drive not yet imported ends with floor <= latest iff the log is empty, its newest timestamp is not negative, or it has more events than are retained |
| `JournalHistory.NegativeLegacyBreaksFloor` | crates/cloudreve-sync/src/fileprovider_db.rs:265-288 | under any retention of at least one event, a legacy log whose only event is at -5 ends with the floor above the head |
| `JournalHistory.CommitKeeps` | crates/cloudreve-sync/src/fileprovider_db.rs:249-288 | every successful commit keeps the journal faithful to everything it ever held: whatever is stored was committed, whatever was committed is stored or at or below the floor, no sequence above the head, no sequence twice |
| `JournalHistory.CommitClimbs` | crates/cloudreve-sync/src/fileprovider_db.rs:269-288 | on an imported journal a commit imports nothing, and floor and head only rise |
| `JournalHistory.FirstCommitImportsLog` | crates/cloudreve-sync/src/fileprovider_db.rs:252-268 | the first commit to a drive succeeds only if its whole legacy log was read, and then holds every event of it or has it at or below its floor |
| `CommitSuccess.CommitSucceedsExactly` | crates/cloudreve-sync/src/fileprovider_db.rs:249-275 | on a faithful journal a commit succeeds iff the drive is imported or its log can be, and there are sequences for the records that follow clock and head, none refused, with the head before each below the end of the range; it then records exactly those |
| `CommitSuccess.ImportSucceedsExactly` | crates/cloudreve-sync/src/fileprovider_db.rs:252-268 | an import succeeds iff the drive is imported, or its log is missing, or it was read, has no malformed line, and its sequences are accepted, each once |
| `CommitSuccess.ParsesExactly` | crates/cloudreve-sync/src/fileprovider_db.rs:259-263 | a log is read iff no line is malformed |
| `CommitSuccess.ParsedInOrder` | crates/cloudreve-sync/src/fileprovider_db.rs:261-263 | it yields what its parsed lines hold, all of them and in their order |
| `CommitSuccess.FreshDeliveryCommitsExactly` | crates/cloudreve-sync/src/fileprovider_db.rs:235-275 | after any run and under any clock, with a database that refuses nothing: a delivery not already committed and unacknowledged is committed now iff the drive is imported or its log can be, and neither head nor clock leaves too little of the range |
| `EventLogs.RemovedLogsAreInJournal` | crates/cloudreve-sync/src/fileprovider_db.rs:75-88 | in every run of commits, failures and removals: a removed log not written after its drive was imported was read in full, and each of its events is in the history and stored or at or below the floor |
| `EventLogs.LateLogSurvivesExactly` | crates/cloudreve-sync/src/fileprovider_db.rs:75-88 | an event of a log written after the import survives the removal iff the file is not named like a log or the journal had the event anyway |
| `EventLogs.RunsKeepInv` | crates/cloudreve-sync/src/fileprovider_db.rs:75-88 | in every run the log of an imported drive is in its history unless written late |
| `EventLogs.EmptyCommitAddsOnlyTheLog` | crates/cloudreve-sync/src/fileprovider_db.rs:84-86 | the commit before a removal adds nothing but the log it imports, to an imported drive nothing at all, and touches no delivery or receipt |
| `EventLogs.EventLogStore.RemoveEventLog` | crates/cloudreve-sync/src/fileprovider_db.rs:84-86 | commits nothing, and deletes the log iff that commit succeeds; otherwise nothing changes |
| `EventLogs.EventLogStore.RemoveEventLogs` | crates/cloudreve-sync/src/fileprovider_db.rs:75-88 | the loop, in any listing order: on success exactly the files not named like logs are left; it stops only at a log whose commit fails; what it did is a run of commits and removals |
| `JournalRuns.RunsKeepInv` | crates/cloudreve-sync/src/fileprovider_db.rs:235-295 | after any run of retried, failing and successful commits and acknowledgements: every journal faithful and bounded, tokens exactly the unacknowledged deliveries, no delivery committed twice without an acknowledgement between |
| `JournalRuns.RunsKeepFloor` | crates/cloudreve-sync/src/fileprovider_db.rs:265-286 | if no legacy log has only negative timestamps, floor <= latest after any run |
| `JournalRuns.SequencesNeverReused` | crates/cloudreve-sync/src/fileprovider_db.rs:269-275 | an allocated sequence is above every sequence the drive's journal ever held, pruned ones included |
| `JournalRuns.NothingMissingAboveFloor` | crates/cloudreve-sync/src/fileprovider_db.rs:276-288 | above any anchor at or over the floor the table holds exactly what was ever committed there |
| `JournalRuns.RetryIsNoOpWhileOpen` | crates/cloudreve-sync/src/fileprovider_db.rs:244-248 | retrying a delivery changes nothing iff it is committed and not yet acknowledged; it then succeeds with its records untouched |
| `JournalRuns.DeleteReceiptsExactly` | crates/cloudreve-sync/src/fileprovider_db.rs:289-292 | a receipt stays iff no consumed receipt names its key with its present payload |
| `JournalRuns.ReceiptsGoWithTheirEvents` | crates/cloudreve-sync/src/fileprovider_db.rs:226-295 | a receipt disappears only in a transaction that committed all the events of the call that named it with that payload |
| `JournalRuns.ReceiptStaysUntilConsumed` | crates/cloudreve-sync/src/fileprovider_db.rs:289-292 | a receipt that was put stays with its payload through every run that neither names it with that payload nor replaces it |
| `Outbox.RunsDeliverExactlyOnce` | crates/cloudreve-sync/src/inventory/db/fileprovider_remote_items.rs:120-151 | in every run, with crashes anywhere, the journal has received a prefix of the queued rows in order, once each with their own events; it covers every deleted row and at most one that is still queued |
| `Outbox.DrainedMeansDelivered` | crates/cloudreve-sync/src/inventory/db/fileprovider_remote_items.rs:118-151 | an empty outbox means all of it was delivered |
| `Outbox.UndisturbedPassDelivers` | crates/cloudreve-sync/src/inventory/db/fileprovider_remote_items.rs:118-151 | after any run, a pass in which no commit fails takes three steps a row, empties the outbox and leaves everything ever queued in the journal |
| `Outbox.PassAfterStopDelivers` | crates/cloudreve-sync/src/inventory/db/fileprovider_remote_items.rs:118-151 | the same after a stop anywhere, in the middle of a pass too |
| `Outbox.FailedCommitEndsPass` | crates/cloudreve-sync/src/inventory/db/fileprovider_remote_items.rs:141-142 | a commit that fails ends the pass with rows and journal as they were |
| `Outbox.EnqueueExactly` | crates/cloudreve-sync/src/inventory/db/fileprovider_remote_items.rs:154-169 | queueing adds one row at the end, with the id and, in order, the events given, their sequence not yet set; without events it adds nothing |
| `Outbox.StepKeeps` | crates/cloudreve-sync/src/inventory/db/fileprovider_remote_items.rs:139-149 | appending, deleting the row and acknowledging, in that order, keep the exactly-once invariant against any other commits |
| `ChangeFeed.EventsAboveExactly` | macos/fileprovider/Sources/FileProviderStateDatabase.swift:121-136 | the snapshot is exactly the stored events above the anchor, in sequence order, once each |
| `ChangeFeed.ExpiresExactly` | macos/fileprovider/Sources/RemoteStore.swift:1253-1269 | an anchor is refused iff it is unreadable or above the head, or below the floor, or a rescan was ever committed above it, pruned ones included |
| `AnchorExpiry.IssuedAnchorExpiresExactly` | macos/fileprovider/Sources/RemoteStore.swift:1253-1269 | take any run, an anchor the journal can answer then, and any further run: the anchor is refused iff an event committed above it was pruned or a rescan was committed above it (or it is negative and the floor has passed it) |
| `ChangeFeed.RestAfter` | macos/fileprovider/Sources/RemoteStore.swift:1270-1278 | a page that stops early stops exactly where the rest of the feed begins |
| `ChangeFeed.ChangesSplit` | macos/fileprovider/Sources/RemoteStore.swift:1253-1283 | an accepted call succeeds; feed above the anchor = page + feed above the returned anchor; moreComing iff something is left; the returned anchor is accepted again |
| `ChangeFeed.Drain` | macos/fileprovider/Sources/RemoteStore.swift:1253-1283 | repeating the call on a quiet journal gives exactly the container's matching events above the anchor, in order, once each, and ends at the head |
| `ChangeFeed.ChildEventTouchesFolder` | macos/fileprovider/Sources/RemoteStore.swift:1286-1321 | an event whose source or target stands for a direct child of a folder, in whatever form the path is written, reaches the folder's feed, the root's included |
| `ChangeFeed.EmptyTargetInRootFeed` | macos/fileprovider/Sources/RemoteStore.swift:1294-1321 | an event without a target is in the root's feed iff its source belongs there or the drive's folder lies directly under `cloudreve://my` (or has an empty parent) |
| `ChangeFeed.WorkingSetHearsEverything` | macos/fileprovider/Sources/RemoteStore.swift:1311-1316 | the feed of the working set is every event above the anchor |
| `ChangeFeed.TouchesFolderExactly` | macos/fileprovider/Sources/RemoteStore.swift:1290-1321 | an event is in a folder's feed iff one of its two addresses is the folder's URI or is cut, without one slash at its end and at its last slash, to what stands for it; an address without a slash belongs to the root |
| `ChangeFeed.EventAddress` | macos/fileprovider/Sources/RemoteStore.swift:1286-1291 | a path with the scheme is decoded as it is; any other lies below the remote path, with or without a slash in front |
| `ChangeFeed.MatchingExactly` | macos/fileprovider/Sources/RemoteStore.swift:1270-1273 | a feed is exactly the events above the anchor that touch the container, each once and in order |
| `ChangeFeed.NotReadyExactly` | macos/fileprovider/Sources/FileProviderStateDatabase.swift:121-129 | a call waits for the app iff its anchor can be read and the drive's journal is not imported; an unreadable anchor has expired |
| `ChangeFeed.CurrentAnchorIsCaughtUp` | macos/fileprovider/Sources/RemoteStore.swift:1246-1250 | the current anchor exists iff the journal is imported, is its head, and leaves nothing to hand over |
| `WorkingSetReader.NothingSkipped` | macos/fileprovider/Sources/FileProviderEnumerator.swift:117-205 | in every interleaving, each event above the starting anchor and at or below the anchor held was in a finished page, or committed before a finished reconciliation captured its anchor; finished pages come in strictly growing sequence order |
| `WorkingSetReader.UndisturbedCallback` | macos/fileprovider/Sources/FileProviderEnumerator.swift:117-205 | a callback that applies its whole page moves the anchor to the page's and hands over that page, nothing else |
| `WorkingSetReader.UndisturbedReconciliation` | macos/fileprovider/Sources/FileProviderEnumerator.swift:123-153 | one that finds its anchor expired and reconciles ends at the journal's head |
| `WorkingSetReader.FailedCallbackKeepsAnchor` | macos/fileprovider/Sources/FileProviderEnumerator.swift:156-163 | a callback that fails at any of its events leaves the reader exactly where it was |
| `WorkingSetReader.UnreadyCallbackKeepsAnchor` | macos/fileprovider/Sources/FileProviderEnumerator.swift:123-153 | so does one that waits for the app, cannot capture an anchor, or fails to reconcile |
| `WorkingSetReader.RestartIsCaughtUp` | macos/fileprovider/Sources/RemoteStore.swift:1246-1249 | a reader that enumerated everything anew goes on from the head with nothing left to be told |
| `WorkingSetReader.CommittedDuringReconciliationStaysAbove` | macos/fileprovider/Sources/FileProviderEnumerator.swift:128-153 | whatever is committed while a reconciliation runs lies above the anchor it will return |
| `WorkingSetReader.ReadFits` | macos/fileprovider/Sources/RemoteStore.swift:1253-1283 | a page read from a faithful journal leaves out nothing up to the anchor it returns |
| `WorkingSetReader.JournalStepKeeps` | crates/cloudreve-sync/src/fileprovider_db.rs:235-295 | commits between the reader's steps, pruning ones included, break none of this |
| `WorkingSetReader.RunsKeepInv` | macos/fileprovider/Sources/FileProviderEnumerator.swift:117-216 | the reader's invariant holds in every reachable state |
| `ChangeEnumerator.FileProviderEnumerator.EnumerateChanges` | macos/fileprovider/Sources/FileProviderEnumerator.swift:88-216 | one call finishes exactly once; with an error at once if migrated state cannot be recovered; with the page's anchor only if every event was applied in order, else with an error after the events before the failing one; on expiry the working set reconciles from the captured anchor and other containers report the expiry; a requested refresh of presented items is used up |
| `ChangeEnumerator.FileProviderEnumerator.ApplyPage` | macos/fileprovider/Sources/FileProviderEnumerator.swift:156-163 | the replay loop stops at the first event that fails and collects exactly the applied events that are not local echoes and resolved to an item |
| `ChangeEnumerator.FileProviderEnumerator.ReconcileOrFail` | macos/fileprovider/Sources/FileProviderEnumerator.swift:123-155 | what each read failure leads to, for the working set and for other containers |
| `ChangeEnumerator.FileProviderEnumerator.ConsumePresentedContainerRefresh` | macos/fileprovider/Sources/FileProviderEnumerator.swift:218-224 | a requested refresh is handed out once |
| `LegacyCleanup.CleanupLosesNothing` | crates/cloudreve-sync/src/fileprovider_db.rs:38-74 | after any run, whatever an import read is in the table unless a record operation changed it; a removed file was imported with exactly the text it had, unless written after the import |
| `LegacyCleanup.ConsumedStaysConsumed` | crates/cloudreve-sync/src/fileprovider_db.rs:134-158 | a record absent from an imported namespace stays absent until it is put again, whatever imports and cleanups run |
| `LegacyCleanup.OnlyRecognizedRemoved` | crates/cloudreve-sync/src/fileprovider_db.rs:58-69 | only visible regular files of the recognised kinds are ever removed |
| `LegacyCleanup.RecognizedExactly` | crates/cloudreve-sync/src/fileprovider_db.rs:60-66 | which names are recognised, namespace by namespace, stated on their endings and digits |
| `LegacyCleanup.OnlyLegacyNamesRemoved` | crates/cloudreve-sync/src/fileprovider_db.rs:58-69 | in every run of the real cleanup a removed file is regular, visible, and has the ending or length its namespace calls for |
| `LegacyCleanup.LateWriteSurvivesExactly` | crates/cloudreve-sync/src/fileprovider_db.rs:54-69 | a file written after the import survives the cleanup iff it is not recognised, or hidden, or its record holds the same text |
| `LegacyCleanup.ImportExactly` | crates/cloudreve-sync/src/fileprovider_db.rs:134-158 | an import succeeds iff it was done before, nothing is at the path, or it leads to a directory without odd names whose visible regular files are all text; then each such file has its text under its name unless a record was there, and all else stays |
| `LegacyCleanup.RunsKeepInv` | crates/cloudreve-sync/src/fileprovider_db.rs:38-210 | the invariant behind these holds through imports, record operations, late writes and cleanup steps in any order |
| `LegacyCleanup.RecordStore.ImportRecords` | crates/cloudreve-sync/src/fileprovider_db.rs:136-158 | imports once, all entries or none, whatever order the directory lists them in |
| `LegacyCleanup.RecordStore.ReadEntries` | crates/cloudreve-sync/src/fileprovider_db.rs:142-151 | the loop inserts every visible regular file that has no record yet, and fails iff one of them is not text |
| `LegacyCleanup.RecordStore.PutRecord` | macos/fileprovider/Sources/FileProviderStateDatabase.swift:106-110 | succeeds iff the import does; the table is then the imported one with that payload under the key, and a failed call leaves everything as it was |
| `LegacyCleanup.RecordStore.RemoveRecord` | macos/fileprovider/Sources/FileProviderStateDatabase.swift:112-115 | succeeds iff the import does; the table is then the imported one without the key |
| `LegacyCleanup.RecordStore.ConsumeRecord` | crates/cloudreve-sync/src/fileprovider_db.rs:177-187 | deletes and reports true iff the record still has the payload that was read |
| `LegacyCleanup.RecordStore.UpdateRecord` | crates/cloudreve-sync/src/fileprovider_db.rs:189-212 | goes through iff the import succeeds, the record is there and the change accepts its payload; then that payload is replaced, otherwise nothing beyond the import changes |
| `LegacyCleanup.RecordStore.CleanNamespace` | crates/cloudreve-sync/src/fileprovider_db.rs:44-74 | succeeds iff the namespace is no directory, or can be listed, imported and rid of its recognised files; then exactly those are gone; on failure it lacks none but recognised files, and nothing if the removals themselves would work; other namespaces are untouched |
| `LegacyCleanup.RecordStore.RemoveRecognized` | crates/cloudreve-sync/src/fileprovider_db.rs:55-71 | the removal loop, in any listing order, stops at a removal that fails and otherwise leaves exactly the unrecognised entries; it counts what it removed |
| `LegacyCleanup.RecordStore.MigrateAndCleanup` | crates/cloudreve-sync/src/fileprovider_db.rs:38-75 | succeeds iff every listed directory can be listed, imported and emptied; then each was imported and lost exactly its recognised files and nothing else changed; however far it comes, what it did is a run of import and removal steps, so the run theorems apply |
| `CounterMode.UploadEncryptor.Add` | macos/fileprovider/Sources/UploadEncryption.swift:125-133 | the in-place carry loop with its early exit is one big-endian addition |
| `CounterMode.AdvanceIsModular` | macos/fileprovider/Sources/UploadEncryption.swift:124-133 | that addition is modulo 256 to the counter's length (NIST SP 800-38A, Appendix B.1) |
| `CounterMode.AdvanceCompose` | macos/fileprovider/Sources/UploadEncryption.swift:79-85 | adding a and then b is adding a + b |
| `CounterMode.StepsAreOneAdd` | macos/fileprovider/Sources/UploadEncryption.swift:79-85 | adding b and then 1 k times is adding b + k |
| `CounterMode.CountersDistinct` | macos/fileprovider/Sources/UploadEncryption.swift:79-85 | two blocks less than a whole period apart never share a counter |
| `CounterMode.UploadEncryptor.Counters` | macos/fileprovider/Sources/UploadEncryption.swift:79-85 | the counter buffer is the concatenation of consecutive counters from the block offset |
| `CounterMode.UploadEncryptor.Encrypt` | macos/fileprovider/Sources/UploadEncryption.swift:71-122 | byte p is combined with byte p mod 16 of the cipher of the counter advanced by p div 16 (NIST SP 800-38A, section 6.5); fails iff there is data and the cipher call fails |
| `CounterMode.CtrInvolution` | macos/fileprovider/Sources/UploadEncryption.swift:69-122 | encrypting twice at one offset gives the input back |
| `CounterMode.XorIsBitwise` | macos/fileprovider/Sources/UploadEncryption.swift:117-117 | a bit of the combined byte is set iff the two bits differ |
| `CounterMode.CtrFlipsBits` | macos/fileprovider/Sources/UploadEncryption.swift:112-118 | every bit sent is the data's bit, flipped iff that bit of byte p mod 16 of the cipher of the counter advanced by p div 16 is set |
| `CounterMode.UploadEncryptor.XorStream` | macos/fileprovider/Sources/UploadEncryption.swift:112-120 | the xor loop over a key stream that starts inside a block is counter mode at the absolute offset |
| `CounterMode.CtrSplit` | macos/fileprovider/Sources/UploadEncryption.swift:69-122 | encrypting two pieces at their offsets is encrypting the whole |
| `CounterMode.EcbAt` | macos/fileprovider/Sources/UploadEncryption.swift:90-104 | one call over the concatenated counters ciphers each 16-byte block separately |
| `CounterMode.StreamAligned` | macos/fileprovider/Sources/UploadEncryption.swift:74-118 | the index inside the key stream picks the key byte of the absolute position |
| `ChunkedUpload.UploadFile` | macos/fileprovider/Sources/CloudreveClient.swift:714-741 | for every chunk size and sequence of short reads, what was sent is the one-pass encryption of the bytes counted as complete; success means the whole file; empty files send one empty chunk; no body exceeds the negotiated size (one byte where none is given), and with full reads all but the last have exactly that size |
| `ChunkedUpload.ServerDecrypts` | macos/fileprovider/Sources/CloudreveClient.swift:730-741 | one pass over the concatenated chunks gives the file back |
| `ChunkedUpload.SentIsPrefix` | macos/fileprovider/Sources/CloudreveClient.swift:730-746 | an upload that stops anywhere has sent a prefix of the payload, and all of it iff the whole file was read |
| `ChunkedUpload.EncryptChunk` | macos/fileprovider/Sources/CloudreveClient.swift:734-734 | a chunk is encrypted at its absolute offset, or passed on when the session has no encryption |
| `TimeFlow.DecodeTimeFlowString` | crates/cloudreve-api/src/api/explorer.rs:32-119 | the decoder with its loops equals the specification; no index is out of range |
| `TimeFlow.UnscrambleLoop` | crates/cloudreve-api/src/api/explorer.rs:54-98 | the in-place swap-and-pop loop equals its recursive form |
| `TimeFlow.UnscrambleIsPermutation` | macos/fileprovider/Sources/CloudreveClient.swift:597-616 | the result is the input rearranged by a permutation of positions that depends on length and digits alone |
| `TimeFlow.PlainTurn` | crates/cloudreve-api/src/api/explorer.rs:63-98 | which character lands where: for a value of n characters in bucket t of m decimal digits let k = (n - 1) mod m and D the k-th digit; the last plain character is that at (n - 1 + D k) mod n for even n, at \|2 k D - (n - 1)\| mod n for odd n, and the rest is the plain form of what is left with the last character in its place |
| `TimeFlow.DecimalDenotes` | crates/cloudreve-api/src/api/explorer.rs:103-118 | the decimal text before the bar denotes the bucket |
| `TimeFlow.ScrambleThenUnscramble` | crates/cloudreve-api/src/api/explorer.rs:63-98 | unscrambling undoes scrambling |
| `TimeFlow.UnscrambleThenScramble` | crates/cloudreve-api/src/api/explorer.rs:63-98 | scrambling undoes unscrambling |
| `TimeFlow.EncodeUnique` | crates/cloudreve-api/src/api/explorer.rs:103-118 | exactly one scrambled string has the plain form "t\|url" |
| `TimeFlow.DecodeExactly` | macos/fileprovider/Sources/CloudreveClient.swift:585-622 | for every value, url and clock: decoding yields url iff the value is exactly that string for the clock's bucket, or both are empty (the Rust copy also accepts the bare bucket for the empty url) |
| `TimeFlow.CopiesDisagree` | crates/cloudreve-api/src/api/explorer.rs:103-118 | the two copies differ exactly on the scrambled bare bucket |
| `TimeFlow.DecodeTolerance` | crates/cloudreve-api/src/api/explorer.rs:10-29 | a clock one bucket off still decodes; only an earlier candidate bucket accepting the same string can give another answer |
| `Recovery.RecoverIdentities` | macos/fileprovider/Sources/MaterializedStateRecovery.swift:27-41 | the fixpoint ends, its domain is exactly the existing identities and the items whose parent chain reaches one of them, in any list order; with fresh distinct identifiers each URI is its parent's plus the name |
| `Recovery.Pass` | macos/fileprovider/Sources/MaterializedStateRecovery.swift:32-40 | one pass is sound, shrinks what remains or learns nothing, and keeps the URIs consistent |
| `Recovery.FixpointIsReachable` | macos/fileprovider/Sources/MaterializedStateRecovery.swift:31-41 | a sound set nothing more can be added to is the reachable set |
| `Recovery.ChildUriExactly` | macos/fileprovider/Sources/MaterializedStateRecovery.swift:38-38 | a child's URI is its parent's without any slashes at its ends, a slash, and the name |
| `Recovery.ChildrenJoinParents` | macos/fileprovider/Sources/MaterializedStateRecovery.swift:36-38 | so each recovered URI is its parent's recovered URI, whatever slashes surround it, joined with the name |
| `Recovery.LastListedWins` | macos/fileprovider/Sources/MaterializedStateRecovery.swift:42-42 | of items listed under one identifier the last counts as the ancestor |
| `Recovery.Reconstruct` | macos/fileprovider/Sources/MaterializedStateRecovery.swift:27-60 | identities without the root entry, and the pins of the pin filter |
| `Recovery.InferPins` | macos/fileprovider/Sources/MaterializedStateRecovery.swift:42-57 | the filter selects the known items that are explicitly pinned, or effectively pinned with a clear walk to the root |
| `Recovery.WalkLoop` | macos/fileprovider/Sources/MaterializedStateRecovery.swift:49-56 | the ancestor walk ends, on cyclic parents too, and equals its recursive form |
| `Recovery.WalkMeans` | macos/fileprovider/Sources/MaterializedStateRecovery.swift:49-56 | it succeeds iff the listed parents lead to the root with no pin on the way |
| `Recovery.PinsExactly` | macos/fileprovider/Sources/MaterializedStateRecovery.swift:43-58 | an identifier is pinned iff it is known and some item under it is explicitly pinned, or effectively pinned with listed parents that lead to the root past no pin |
| `Recovery.PinsCover` | macos/fileprovider/Sources/MaterializedStateRecovery.swift:42-59 | every pinned item whose listed ancestors reach the root is covered by itself or an ancestor among the recovered pins |
| `Recovery.InferredPinsAreTopmost` | macos/fileprovider/Sources/MaterializedStateRecovery.swift:45-56 | a pin inferred without the explicit flag has no pinned listed ancestor below the root |
| `Identities.RemoteStore.Load` | macos/fileprovider/Sources/RemoteStore.swift:131-152 | the load loop: the first saved identifier, in sorted order, to claim a canonical URI keeps it |
| `Identities.LoadKeepsFirst` | macos/fileprovider/Sources/RemoteStore.swift:136-150 | every saved URI is mapped, and to its first claimant |
| `Identities.LoadUriExactly` | macos/fileprovider/Sources/RemoteStore.swift:136-150 | an identifier is mapped after loading iff an entry under one of its spellings is the first to claim its URI, and to the URI of the last such entry |
| `Identities.SpellingsMeetExactly` | macos/fileprovider/Sources/RemoteStore.swift:1419-1424 | the two spellings of an identifier become one unless a third slash follows; all others stay as they are |
| `Identities.RemoteStore.RecordIdentity` | macos/fileprovider/Sources/RemoteStore.swift:424-457 | recording, with its collision and no-change branches, on the fields |
| `Identities.RemoteStore.EvictCachedItems` | macos/fileprovider/Sources/RemoteStore.swift:1667-1690 | the eviction loops, in any order, equal forgetting the doomed set at once |
| `Identities.RemoteStore.MergeRecoveredIdentities` | macos/fileprovider/Sources/RemoteStore.swift:1518-1530 | the merge loop on the fields |
| `Identities.RunsKeepInv` | macos/fileprovider/Sources/RemoteStore.swift:424-457 | through every run of record, evict and merge each identifier's URI maps back to it |
| `Identities.RecordExactly` | macos/fileprovider/Sources/RemoteStore.swift:424-457 | recording puts the identity at the URI, frees its old one, clears its deletion and changes no other entry; if another identity holds the URI nothing changes |
| `Identities.MergeOneExactly` | macos/fileprovider/Sources/RemoteStore.swift:1518-1530 | one recovered pair does the same but leaves the deletions alone |
| `Identities.MergeMapsRecovered` | macos/fileprovider/Sources/RemoteStore.swift:1518-1530 | wherever it stands in the order, a recovered pair that collides with nothing is mapped both ways after the merge |
| `Identities.NoSharedUri` | macos/fileprovider/Sources/RemoteStore.swift:131-152 | so no two identifiers share a URI |
| `Identities.LoadedRunsShareNoUri` | macos/fileprovider/Sources/RemoteStore.swift:131-152 | from load and through every run of record, evict and merge each URI maps back and no two identifiers share one |
| `Identities.EvictExactly` | macos/fileprovider/Sources/RemoteStore.swift:1667-1690 | for every identifier, mapped or not: a named one, or one below a named URI, leaves all tables and its URI is remembered; every other keeps its entries in all of them |
| `Identities.KnownIsLastRecorded` | macos/fileprovider/Sources/RemoteStore.swift:1339-1348 | starting empty with record and evict, an identity is known at a URI iff that is the last one recorded for it |
| `Identities.MergeRespectsLive` | macos/fileprovider/Sources/RemoteStore.swift:1518-1530 | a merge leaves every identity it does not recover at its URI |
| `Identities.MergeAmbiguity` | macos/fileprovider/Sources/RemoteStore.swift:1518-1530 | a recovered identity is known at a second URI iff it was deleted at a different one |
| `Conflicts.RunsKeepBase` | macos/fileprovider/Sources/FileProviderExtension.swift:649-795 | in every run, until the record is removed and while reads are safe (the read succeeds, or the token is the base): every later record keeps the base, every overwriting upload names it, and an accepted one replaced exactly it |
| `Conflicts.NewerNeverOverwritten` | macos/fileprovider/Sources/FileProviderExtension.swift:721-733 | from any reachable state between callbacks, under that condition, an accepted upload replaced the held base and nothing newer |
| `Conflicts.SafeReadDecides` | macos/fileprovider/Sources/FileProviderExtension.swift:649-795 | the condition on a read is exact: whatever follows without a removal or another unsafe read keeps the base and names it iff this read was safe |
| `Conflicts.CatchReadKeepsBase` | macos/fileprovider/Sources/FileProviderExtension.swift:776-789 | after a lock or stale failure the saved record still holds the base iff the catch block could read the record or the token is the base |
| `Conflicts.FailedCatchReadOverwrites` | macos/fileprovider/Sources/FileProviderExtension.swift:776-789 | if that read fails with the online version for a token, the next retry overwrites that version though every later read succeeds |
| `Conflicts.FailedCatchReadReached` | macos/fileprovider/Sources/FileProviderExtension.swift:649-789 | such a state, with base 0 held and version 1 online, is reached from the start |
| `Conflicts.UploadsReplaceWhatTheyName` | macos/fileprovider/Sources/FileProviderExtension.swift:721-733 | in every run, whatever reads fail: an accepted upload replaced the version it named; that was the base held then iff the callback had found the record or its token was that base |
| `Conflicts.ActionsConsumedOnce` | macos/fileprovider/Sources/UploadConflictStore.swift:102-111 | in every run, whatever reads fail, each set action is consumed at most once |
| `Conflicts.RunsKeepInv` | macos/fileprovider/Sources/FileProviderExtension.swift:649-795 | the invariant behind the two results that need no condition on reads |
| `Conflicts.ActionSurvives` | macos/fileprovider/Sources/UploadConflictStore.swift:82-111 | a stored action stays until it is consumed, replaced, or its record removed; a concurrent conflict save keeps it |
| `Conflicts.ActionActedOn` | macos/fileprovider/Sources/FileProviderExtension.swift:649-735 | a consumed action decides the branch iff the callback has contents |
| `Conflicts.BranchUploadsExactly` | macos/fileprovider/Sources/FileProviderExtension.swift:657-733 | from every reachable state in which the action has been read, the branch sends one overwriting upload iff there are contents, a previous version is known, and no record was found or the action is a retry; otherwise uploads and the online version stay |
| `Conflicts.BranchLeads` | macos/fileprovider/Sources/FileProviderExtension.swift:657-735 | where each case leads: discard and save-copy to the removal of the record, a record without an action to the end with nothing changed, no previous version to an unverified record, a refused upload to the catch block |
| `Conflicts.CatchSavesKind` | macos/fileprovider/Sources/FileProviderExtension.swift:776-789 | the record saved after a lock or stale failure says which, and keeps action and presentation time |
| `Conflicts.NoContentsNoConflict` | macos/fileprovider/Sources/FileProviderExtension.swift:776-789 | a callback without contents uploads and saves nothing however its other fields end; it may only use up an action |
| `Conflicts.FailedConsumeEnds` | macos/fileprovider/Sources/FileProviderExtension.swift:649-656 | a callback that cannot consume the action of the record it found changes nothing |
| `Conflicts.PresentExactly` | macos/fileprovider/Sources/UploadConflictStore.swift:113-123 | a presentation is claimed iff forced or half a minute has passed since the last, and changes only its time |
| `Conflicts.SetActionReopensPresentation` | macos/fileprovider/Sources/UploadConflictStore.swift:113-123 | setting an action makes the conflict presentable again; presenting it closes that for the interval |
| `Conflicts.FailedReadBypassesBase` | macos/fileprovider/Sources/FileProviderExtension.swift:649-656 | with a retry stored, the overwrite names the held base iff the record could be read before the branch or the token is that base |
| `Conflicts.BaseSticks` | macos/fileprovider/Sources/FileProviderExtension.swift:776-789 | no single step of either process changes a held base other than by removing the record, and after it the callback still works with that base iff the read in the step was safe |
| `Conflicts.UploadConflictStore.Save` | macos/fileprovider/Sources/UploadConflictStore.swift:82-100 | saving keeps the stored action and presentation time and writes no other record |
| `Conflicts.UploadConflictStore.Consume` | macos/fileprovider/Sources/UploadConflictStore.swift:102-111 | returns the action and leaves the record without it |
| `Conflicts.UploadConflictStore.Set` | src-tauri/src/upload_conflict.rs:52-69 | the app's step: sets the action on an existing record and clears its presentation time |
| `Conflicts.UploadConflictStore.Claim` | macos/fileprovider/Sources/UploadConflictStore.swift:113-123 | claims a presentation iff forced or the interval has passed |
| `Conflicts.UploadConflictStore.Delete` | macos/fileprovider/Sources/UploadConflictStore.swift:125-127 | removes this record only |
| `PendingMonitor.CompletionsServed` | macos/fileprovider/Sources/FileProviderPendingStore.swift:140-197 | in every run completions are called in the order asked, each once, none before an attempt begun after its request ends; queued ones wait only behind a running refresh flagged to rerun; an idle monitor owes none |
| `PendingMonitor.RunsKeepInv` | macos/fileprovider/Sources/FileProviderPendingStore.swift:140-197 | every completion asked for is called, current or queued, once and in that order |
| `PendingMonitor.AnsweredWithoutManager` | macos/fileprovider/Sources/FileProviderPendingStore.swift:140-159 | a request to an idle monitor without a manager is answered at once, and nothing else happens |
| `PendingMonitor.FinishServes` | macos/fileprovider/Sources/FileProviderPendingStore.swift:186-197 | finishing calls the current completions in order; queued ones become current of a new attempt, or are called too without a manager |
| `PendingMonitor.TwoReportsServeAll` | macos/fileprovider/Sources/FileProviderPendingStore.swift:140-197 | however a run went, once the observer reports twice every completion asked for has been called and the monitor is idle |
| `PendingMonitor.FileProviderPendingMonitor.Refresh` | macos/fileprovider/Sources/FileProviderPendingStore.swift:140-150 | refresh on the fields, against the state machine |
| `PendingMonitor.FileProviderPendingMonitor.StartRefresh` | macos/fileprovider/Sources/FileProviderPendingStore.swift:152-184 | starting an attempt, or finishing at once without a manager |
| `PendingMonitor.FileProviderPendingMonitor.FinishRefresh` | macos/fileprovider/Sources/FileProviderPendingStore.swift:186-197 | finishing calls the current completions and reruns for the queued ones |
| `Redirects.ResolvesExactly` | macos/fileprovider/Sources/ShortcutResolver.swift:20-46 | the loop answers v iff fewer than the limit of rewrites lead to v and v is not rewritten |
| `Redirects.FailsExactly` | macos/fileprovider/Sources/ShortcutResolver.swift:34-37 | it fails for a reason iff fewer than the limit of rewrites lead to an address that cannot be rewritten for that reason |
| `Redirects.CircularExactly` | macos/fileprovider/Sources/ShortcutResolver.swift:23-25 | it reports a circle iff fewer than the limit of rewrites lead to an address that still fewer led to |
| `Redirects.CircularNeverEnds` | macos/fileprovider/Sources/ShortcutResolver.swift:23-25 | the circular error means rewriting never ends |
| `Redirects.TooManyExactly` | macos/fileprovider/Sources/ShortcutResolver.swift:46-46 | it runs out of attempts iff that many rewrites take place with no address before the last coming twice |
| `Shortcuts.ResolvedIsSettled` | macos/fileprovider/Sources/ShortcutResolver.swift:16-47 | an address is the answer iff fewer than the limit of rewrites lead to it and no inspected prefix of it redirects |
| `Shortcuts.RewrittenMeans` | macos/fileprovider/Sources/ShortcutResolver.swift:33-44 | one rewrite follows the shortest redirecting prefix, and there is none iff no prefix redirects |
| `Shortcuts.ShortestIsFollowed` | macos/fileprovider/Sources/ShortcutResolver.swift:33-44 | of the inspected addresses that answer, the shortest is followed |
| `Shortcuts.FollowExactly` | macos/fileprovider/Sources/ShortcutResolver.swift:34-39 | the address becomes the target, without one slash at its end, and everything that followed the redirecting prefix; a target of another scheme is refused |
| `Shortcuts.PrefixesExactly` | macos/fileprovider/Sources/ShortcutResolver.swift:27-32 | the candidates of an address are the address and its cuts at a slash that still have a slash behind the first "://", and none without a scheme |
| `Shortcuts.InspectedExactly` | macos/fileprovider/Sources/ShortcutResolver.swift:27-32 | following the leaf inspects all of them, not following it all but the address itself |
| `Shortcuts.CircularOnlyWhenEndless` | macos/fileprovider/Sources/ShortcutResolver.swift:23-25 | the extension's circular error is raised only for endless rewriting |
| `Shortcuts.ResolvedKeepsLeaf` | macos/fileprovider/Sources/ShortcutResolver.swift:27-39 | without leaf following the last path component is kept |
| `Shortcuts.ParentExactly` | macos/fileprovider/Sources/ShortcutResolver.swift:5-10 | the parent is the address up to the last slash behind its first "://", and the address itself if there is none |
| `Shortcuts.ResolveUri` | macos/fileprovider/Sources/ShortcutResolver.swift:16-47 | the loops equal the specification |
| `Shortcuts.ElementsResolvedIsSettled` | src-tauri/src/share_shortcuts.rs:19-54 | the same law for the app's resolver over path elements |
| `Shortcuts.ElementsAfterPrefixKept` | src-tauri/src/share_shortcuts.rs:33-48 | the shortest prefix that answers is replaced by its target and every element behind it is kept; a target that is a search is refused |
| `Shortcuts.ResolveElements` | src-tauri/src/share_shortcuts.rs:19-54 | the app's loops equal the specification |
| `PinnedRoots.PinnedItems` | src-tauri/src/saved_items.rs:84-119 | the pass keeps exactly the candidates, as often as listed, with no pinned folder candidate strictly above, by depth |
| `PinnedRoots.BelowExactly` | src-tauri/src/saved_items.rs:90-96 | strictly below means the folder's path with at least one element more |
| `PinnedRoots.SkipIffCovered` | src-tauri/src/saved_items.rs:90-96 | comparing with the folders kept so far decides the same as comparing with all |
| `PinnedRoots.CoveredByKept` | src-tauri/src/saved_items.rs:84-96 | whatever is covered is covered by a folder that is itself kept |

## Left out

- Network calls, JSON, SQLite internals, file locking and Objective-C calls: a transaction is one step; errors of statements other than inserts roll back in the same way.
- The text form of anchors (`evt-` and a number): an anchor is an integer or unreadable.
- `reconcileWorkingSet`: an opaque step that succeeds or fails; what it finds on the server is not modelled.
- The system restarts a reader from the anchor it was last given, or from `currentSyncAnchor` after a full enumeration; other anchors it might replay are not modelled.
- Stabilization deletes and queued policy updates delivered at the end of `enumerateChanges`, and the contents of the updates `apply` makes.
- The trash container and `enumerateItems` paging.
- LegacyCleanup.RecordStore.MigrateAndCleanup: the list of nine namespaces is a parameter; the `fp-events` logs, the last part of the same function, are `EventLogs.EventLogStore.RemoveEventLogs`.
- EventLogs.EventLogStore.RemoveEventLogs: a removal that fails is a stop between the commit and the removal, which the runs cover; parsing of UUIDs is a parameter.
- LegacyCleanup.RecordStore.ReadEntries: the hidden flag that macOS adds to the leading dot is not modelled.
- Outbox.RunsDeliverExactlyOnce: the delivery loop is a state machine cut at its transactions, not a method; one deliverer per drive, as the recovery task runs it, and row ids that are never drawn twice.
- Outbox.EnqueueExactly: the payload keeps the timestamp an event came with; the model clears it, since delivery overwrites it.
- CounterMode.UploadEncryptor.Encrypt: key and IV parsing is not modelled, offsets stay below 2^64, and the cipher is any function.
- ChunkedUpload.UploadFile: the upload session and its cancellation are not modelled.
- TimeFlow.DecodeTimeFlowString: characters are Dafny characters, so Swift's grapheme clusters and Rust's byte lengths of the text before the bar coincide.
- Identities.RemoteStore.Load: cached items, shares and pins read from disk are not modelled; the maps start from the saved identities.
- Conflicts.RunsKeepBase: one callback per item at a time; an empty version string counts as an absent version, and discard and save-copy may continue to the rename step, which only adds runs.
- Conflict record identifiers (a hash of drive and address) and their collisions, and content-refresh markers.
- Shortcuts.ResolveElements: parsing of Cloudreve URIs; an address is a root, a list of elements and a search flag.
- PinnedRoots.PinnedItems: an error while converting a path to an address, and the final sort by name.
- The suppression counters of the pending store and the records it writes.
- Cache-wide agreement of effective pin flags, the SSE buffer parser, token refresh, boolset, semver and locale helpers: outside the state engine or easy members.
