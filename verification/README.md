# VaultLink: verified models of its stateful core

VaultLink serves files from a mounted directory, shares them by link, and takes uploads
through multipart forms.  This project models the parts of it whose correctness is not
visible in any one function, and proves what they guarantee over every input, every
interleaving or every run.  It is written in Dafny 4.11; `dafny verify dfyconfig.toml`
checks all of it.

| files | what they model |
|---|---|
| `Common` | optional values, bytes, instants and machine integers, shared by all |
| `ByteMatcher`, `MultipartGrammar`, `MultipartHeaderless`, `MultipartFaults`, `MultipartScan`, `MultipartGuard` | the streaming guard in front of the multipart parser: a Knuth-Morris-Pratt matcher, the syntax it enforces, what becomes of parts without headers or without a body, what each error says about the text, the byte-at-a-time scanner and the stream wrapper |
| `AttemptHistory`, `LoginLimiter`, `LoginLimiterSafety`, `LoginLimiterAdmission`, `LoginLimiterRuns`, `LoginLimiterPanics`, `LoginLimiterObject` | the bounded sliding-window login limiter with its primary map, hashed overflow buckets and poison recovery |
| `DirectoryCache`, `StorageAuthority` | the byte-bounded snapshot cache, and the interleaving of readers, writers, generations and cached listings |
| `FileOperations` | the rename, delete and create drivers over every combination of outcomes of journal, filesystem and database |
| `CleanupWorker` | the background cleanup worker, its requesters and its shutdown |
| `TlsPaths`, `TlsResolution` | component-by-component resolution of certificate paths through symbolic links |
| `SingleFlight`, `SummaryCache` | the two single-flight caches |
| `AdmittedFile`, `AdmittedFileHistory` | the buffered asynchronous file reader, call by call and over whole histories |
| `WriteDeadline` | the idle deadline of a served connection |
| `UploadReplay`, `UploadAcceptance`, `UploadRefusal` | validation of a repeated upload, why it is refused, and the form policy of the first one |
| `ForwardedFor`, `ContainerProxy` | client attribution from forwarded headers, and the proxy's rewrite of them |
| `CredentialBlob`, `CredentialRefusal` | the stored form of WebAuthn credentials |

## How the models are built

Code that updates variables step by step is modelled by methods and classes and proved
against functions or relations; the properties are then lemmas about those.  Concurrent
code is a system of atomic steps, and a property is proved for every sequence of steps.
Ghost logs (admitted attempts, publications, probes, polls) let properties speak about
whole histories.

What an operation decides is also stated without the functions that model it: an error by
the shape of the text, an admission by the attempts recorded, a resolved path by a trace of
directories, an answer from a cache by the log and the clock.  The functions are proved to
agree with these statements in both directions.

Outside code enters as parameters: clocks, the keyed hash that picks an overflow bucket,
path validation, address parsing and printing, the WebAuthn component decoders, the
contents of the filesystem, and the outcome of each filesystem or database action.
Where a law of such code is needed it is a named precondition: printing an address gives
plain text that parses back (`Faithful`), a read returns at most what was asked for and
nothing only at the end of the file (`CanYield`).

The login limiter has two run systems.  In the general one (`LoginLimiterRuns`) a panic may
leave any state that is visibly damaged or still guards the attempts of the log
(`Plausible`).  In the other (`LoginLimiterPanics`) that is not assumed but proved: a call or
a recovery may stop at any of the states it passes through, with one exception named below,
and visible damage may occur at any time.  Every single update of the limiter is noted in a
ghost trace, and the states on that trace are proved to be the ones at which this system
lets calls and recoveries stop.

Machine integers are explicit where they can matter.  The guard's counters saturate; its
agreement with the grammar needs limits that leave room for one delimiter, or a body
shorter than the largest machine integer.  Generations are counted modulo 2^64; two clean
reads are compared when they are less than a whole cycle apart, and cached listings while
there have been fewer publications than that.  The cache assumes a global bound below the
largest machine integer.  Its use clock wraps; eviction goes by ticks, and ticks tell recency
as long as the clock has not wrapped since a stored record was used (`InCycle`).

## Where code and documentation differ

* The guard does not see an empty header block (a blank line directly after the boundary
  line), although section 5.1.1 of RFC 2046 allows one.  It reads on and takes the part's
  body and the next delimiter for header bytes.  `HeaderlessPartAccepted` states exactly when
  such a body is accepted, for a part at any place; `OnePartRejected` is a rejected body.
* That section also allows a part to end with its headers, the CRLF of its blank line being
  that of the next delimiter.  The guard has then used up that CRLF, does not see the
  delimiter, and takes it for the beginning of the part's body.  `BodylessPartAccepted` states
  exactly when such a body is accepted; `OneBodylessPartRejected` is a rejected body.
* A comment in `src/storage_cleanup.rs` (lines 275-277) says that no new batch is launched
  once shutdown was requested.  One can be, when the flag is stored between a batch's own
  check and its launch.  `AtMostOneBatchAfterShutdown` states exactly when;
  `BatchCanFollowShutdown` is the run.
* `AdmittedFile` gives its buffer away when a read starts and keeps the offset into it.  After
  bytes of the last buffer were delivered, a read that is in flight, failed or was lost leaves
  the offset beyond the empty buffer.  A position query then underflows, and so does a
  relative seek unless the read is still in flight; both panic, because overflow checks are on
  in release builds.  `UnderflowsExactly` states this of the history of calls, both ways.
  `FailedReadBreaksRelativeSeek`, `PendingReadBreaksPosition` and `LostReadBreaksPosition` are
  runs.  The bytes delivered are right throughout, and the next completed read or started
  seek mends the offset.
* A forwarded header that is not text makes resolution fail even where the hop already
  reached is untrusted and would have been the answer.  `BinaryValueRefuses` states exactly
  when; `BinaryValueHidesUntrustedHop` shows it for every untrusted client address.
* Recovery of a limiter whose map has outgrown its capacity empties the map before it refills
  the buckets.  Were it to stop in between, attempts would be forgotten (`EmptiedForgets`).
  Only building the buckets lies in between, which cannot fail for a maximum that fits into
  memory.  Every other state of locking and of a call is covered by `LockMomentIsReliable` and
  `InterruptedIsReliable`.

## Model

| member | source | states |
|---|---|---|
| `ByteMatching.FailureTable` | src/multipart_guard.rs:501-519 | every row of the computed table is the longest proper border of that prefix of the pattern |
| `ByteMatching.NextBorder` | src/multipart_guard.rs:505-513 | one row: the longest border of the next prefix, found by falling back through shorter borders |
| `ByteMatching.ByteMatcher.constructor` | src/multipart_guard.rs:501-519 | a new matcher has seen nothing |
| `ByteMatching.ByteMatcher.Feed` | src/multipart_guard.rs:521-534 | reports a match exactly when all bytes fed since the last reset end with the pattern, so overlapping matches and chunk splits change nothing |
| `ByteMatching.ByteMatcher.Reset` | src/multipart_guard.rs:540-542 | forgets everything fed |
| `ByteMatching.AfterFullMatch` | src/multipart_guard.rs:526-533 | after a match the counter falls back to the longest border of the whole pattern, so the next overlapping match is not missed |
| `ByteMatching.IdleOverForeignBytes` | src/multipart_guard.rs:354-359 | bytes that differ from the first pattern byte neither complete a match nor disturb an idle matcher, which justifies the jump in the scanner |
| `MultipartGrammar.DocumentsAreAccepted` | src/multipart_guard.rs:373-490 | every well-formed document (preamble, padded boundary lines, bounded headers, bodies, epilogue) is accepted by the whole-buffer parser |
| `MultipartGrammar.AcceptedIsADocument` | src/multipart_guard.rs:373-490 | every accepted body is the text of a well-formed document |
| `MultipartGrammar.AcceptedExactlyDocuments` | src/multipart_guard.rs:373-490 | acceptance is exactly being the text of a well-formed document |
| `MultipartHeaderless.PartsAreSkipped` | src/multipart_guard.rs:402-468 | complete parts before it do not influence the verdict on the rest |
| `MultipartHeaderless.HeaderlessLineReadsOn` | src/multipart_guard.rs:402-480 | a blank line right after a boundary line is read as the beginning of a header block |
| `MultipartHeaderless.HeaderlessPartVerdict` | src/multipart_guard.rs:402-462 | with a headerless part at any place, the verdict is that on CRLF and the rest read as a header block |
| `MultipartHeaderless.HeaderlessPartAccepted` | src/multipart_guard.rs:402-468 | such a body is accepted exactly when a later blank line lies within the header limit and what follows it is content |
| `MultipartHeaderless.HeaderlessBodyIsSwallowed` | src/multipart_guard.rs:442-462 | then the part's body and the delimiter after it are among the bytes taken for headers |
| `MultipartHeaderless.NextHeadersEndTheBlock` | src/multipart_guard.rs:442-462 | the headers of the next part can be that later blank line, so such bodies exist |
| `MultipartHeaderless.HeaderlessPartRejected` | src/multipart_guard.rs:442-490 | without a later blank line the body is refused, and with which error |
| `MultipartHeaderless.OnePartRejected` | src/multipart_guard.rs:442-490 | a concrete one-part body that is refused |
| `MultipartHeaderless.BodylessLineReadsOn` | src/multipart_guard.rs:402-480 | after headers that end in a delimiter's CRLF, the delimiter is read as the beginning of a body |
| `MultipartHeaderless.BodylessPartAccepted` | src/multipart_guard.rs:402-480 | with such a part at any place, a body is accepted exactly when that delimiter and what follows it are content |
| `MultipartHeaderless.NextPartIsTheBody` | src/multipart_guard.rs:402-480 | a part that follows is taken for the body of the one without, so such bodies exist |
| `MultipartHeaderless.BodylessPartRejected` | src/multipart_guard.rs:402-490 | without a later delimiter the body is refused, and with which error |
| `MultipartHeaderless.OneBodylessPartRejected` | src/multipart_guard.rs:402-490 | a concrete body whose one part has a header and no body, and which is refused |
| `MultipartFaults.RejectedExactly` | src/multipart_guard.rs:373-490 | a body is refused with each of the eight errors exactly where its text has that fault: no delimiter within the preamble limit, or, after a well-formed start, the place where the line, padding, header block or body is wrong or ends too early |
| `MultipartFaults.DocumentOrOneFault` | src/multipart_guard.rs:373-490 | every body is a document or has exactly one fault |
| `MultipartFaults.LineFaultIsReported` | src/multipart_guard.rs:402-490 | each fault after a boundary is reported as what it is |
| `MultipartScan.RunConcat` | src/multipart_guard.rs:351-371 | scanning does not depend on how the bytes are cut into chunks |
| `MultipartScan.RunFailed` | src/multipart_guard.rs:351-371 | an error is final |
| `MultipartScan.RunOverForeignBody` | src/multipart_guard.rs:354-359 | body bytes without a carriage return only lengthen the body |
| `MultipartScan.LimitedFind` | src/multipart_guard.rs:373-400 | the two saturating limit checks together decide whether the first occurrence lies within the limit |
| `MultipartScan.PreambleStep` | src/multipart_guard.rs:373-400 | one preamble byte preserves the grammar's verdict on the rest |
| `MultipartScan.LineStep` | src/multipart_guard.rs:402-440 | one byte after a boundary preserves the grammar's verdict on the rest |
| `MultipartScan.HeadersStep` | src/multipart_guard.rs:442-462 | one header byte preserves the grammar's verdict on the rest |
| `MultipartScan.BodyStep` | src/multipart_guard.rs:464-468 | one body byte preserves the grammar's verdict on the rest |
| `MultipartScan.StepPreservesVerdict` | src/multipart_guard.rs:351-371 | in every reachable position, reading one byte changes neither the verdict nor its error |
| `MultipartScan.FinishIsExpected` | src/multipart_guard.rs:482-490 | at the end of the input the position's own verdict is the grammar's |
| `MultipartScan.ScanAgreesWithGrammar` | src/multipart_guard.rs:351-490 | scanning a whole body byte by byte gives the whole-buffer verdict, error included |
| `MultipartScan.EarlyRejectionIsSound` | src/multipart_guard.rs:351-371 | a body rejected early has no acceptable continuation, and every continuation is rejected with the same error |
| `MultipartGuard.MultipartScanner.constructor` | src/multipart_guard.rs:333-349 | a new scanner stands at the start of the scan, for any boundary of up to 70 bytes |
| `MultipartGuard.MultipartScanner.ScanPreamble` | src/multipart_guard.rs:373-400 | performs the preamble step of the scan, or fails with that step's error |
| `MultipartGuard.MultipartScanner.ScanBoundarySuffix` | src/multipart_guard.rs:402-440 | performs the boundary-line step of the scan, or fails with that step's error |
| `MultipartGuard.MultipartScanner.ScanHeader` | src/multipart_guard.rs:442-462 | performs the header step of the scan, or fails with that step's error |
| `MultipartGuard.MultipartScanner.ScanBody` | src/multipart_guard.rs:464-468 | performs the body step of the scan |
| `MultipartGuard.MultipartScanner.SkipForeign` | src/multipart_guard.rs:354-359 | jumping to the next carriage return gives the state that scanning every byte would give |
| `MultipartGuard.MultipartScanner.Scan` | src/multipart_guard.rs:351-371 | one chunk, jumps included, is the byte-wise run over the chunk, or fails with that run's error |
| `MultipartGuard.MultipartScanner.Finish` | src/multipart_guard.rs:482-490 | allows the end exactly in the positions where a body may end, and names the error otherwise |
| `MultipartGuard.StopsExactly` | src/multipart_guard.rs:351-468 | the scanner stops in the middle exactly at a fault that no further bytes can mend, with that error |
| `MultipartGuard.GuardedMultipartStream.PollNext` | src/multipart_guard.rs:259-291 | each poll yields and leaves exactly what the stream specification says: pass on, fail once, or end |
| `MultipartGuard.AfterTerminal` | src/multipart_guard.rs:262-266 | after an error or the end every poll yields the end |
| `MultipartGuard.GuardedStreamIsFaithful` | src/multipart_guard.rs:259-291 | whatever way the body arrives, the consumer sees the chunks unchanged while the text could still become a document, then at most one error, which is what is wrong with the text so far, then the end; a body without source failure ends cleanly exactly when it is a document |
| `AttemptHistories.CountPruned` | src/auth.rs:484-488 | pruning loses nothing that still counts |
| `AttemptHistories.CountKeptNewest` | src/auth.rs:318-329 | keeping only the newest attempts keeps every count up to the number kept |
| `AttemptHistories.IntervalBound` | src/auth.rs:354-450 | a log in which attempts `max` apart are a window apart has at most `max` attempts in any interval shorter than the window |
| `LoginLimiting.Unique` | src/auth.rs:362-367 | each requested key once, the same keys as asked for |
| `LoginLimiterSafety.CleanupOnlyPrunes` | src/auth.rs:468-482 | global cleanup changes nothing but expired attempts |
| `LoginLimiterSafety.PrunedCovers` | src/auth.rs:468-488 | after pruning, whatever guards a key still holds all its attempts that count |
| `LoginLimiterSafety.PlanKeysFacts` | src/auth.rs:388-414 | every requested key is assigned to its entry, a free slot or its bucket; buckets are charged only where justified; slots never exceed the capacity |
| `LoginLimiterSafety.PreparedOnlyPrunes` | src/auth.rs:369-414 | up to the decision a call changes nothing but expired attempts |
| `LoginLimiterSafety.AdmittedIsRecorded` | src/auth.rs:354-450 | an admitted call charges every requested key once in the store that guards it, and nothing else |
| `LoginLimiterSafety.RefusedRecordsNothing` | src/auth.rs:416-430 | a refused call leaves every attempt that counts where it was |
| `LoginLimiterAdmission.AdmittedExactly` | src/auth.rs:354-450 | a call is admitted exactly when every key it names has fewer than `max` attempts less than a window old: its own if it has any, else those of its bucket |
| `LoginLimiterAdmission.EntriesGoToTheFirst` | src/auth.rs:388-449 | an admitted call gives entries to the keys nothing counted against, in order of first appearance, exactly as long as there is room |
| `LoginLimiterAdmission.EverySixtyFourthCallSweeps` | src/auth.rs:461-482 | the operation counter wraps at 2^64, and every 64th call leaves no expired attempt and nothing empty |
| `LoginLimiterAdmission.LoneKeyGetsExactlyMax` | src/auth.rs:354-450 | a key that nothing counted against and that asks alone is admitted exactly `max` times within one window, over every such run |
| `LoginLimiterAdmission.RecoveryKeepsNewest` | src/auth.rs:316-330 | recovery of a state without damage keeps of every store exactly the newest `max` attempts less than a window old |
| `LoginLimiterRuns.InitialInvariant` | src/auth.rs:259-268 | a new limiter satisfies the invariant |
| `LoginLimiterRuns.AttemptInvariant` | src/auth.rs:354-450 | any call keeps the invariant, also when it moves a key between its entry and a bucket |
| `LoginLimiterRuns.SuccessInvariant` | src/auth.rs:452-459 | a success forgets one key's own entry and weakens the guard of no other key |
| `LoginLimiterRuns.RecoveryRestoresBounds` | src/auth.rs:293-335 | recovery restores every bound, whatever state was found |
| `LoginLimiterRuns.DamagedRecovery` | src/auth.rs:301-315 | recovery from structural damage keeps the invariant |
| `LoginLimiterRuns.SoundRecovery` | src/auth.rs:316-330 | recovery of a sound state, truncation included, keeps the invariant |
| `LoginLimiterRuns.InterruptedIsReliable` | src/auth.rs:369-449 | wherever a call panics, pruning or recording, what it leaves behind is not damaged and still guards the log |
| `LoginLimiterRuns.RecoveringIsReliable` | src/auth.rs:316-330 | so does a recovery of a sound state that panics in turn |
| `LoginLimiterRuns.LockMomentIsReliable` | src/auth.rs:293-335 | every state of locking shows its damage or still guards the log, except between the two stores that answer a full map |
| `LoginLimiterRuns.EmptiedForgets` | src/auth.rs:308-315 | between those two stores an attempt is forgotten where its bucket does not hold it |
| `LoginLimiterRuns.RunInvariant` | src/auth.rs:272-493 | the invariant holds after every run of attempts, successes and recoveries |
| `LoginLimiterRuns.WindowBudget` | src/auth.rs:272-493 | over every run whose panics leave visible damage or a state that guards the log, a key is admitted at most `max` times in any interval shorter than the window since its last success, and the state stays bounded |
| `LoginLimiterPanics.StepSafe` | src/auth.rs:293-459 | calls, successes and recoveries, finished or stopped anywhere, and damage all leave a limiter that guards the log or shows its damage |
| `LoginLimiterPanics.PanickingWindowBudget` | src/auth.rs:272-493 | the budget over every history in which calls and recoveries may stop anywhere, except between the two stores that answer a full map, with nothing assumed about what they leave |
| `LoginLimiterPanics.SealedRefuses` | src/auth.rs:301-430 | while every bucket holds `max` attempts since an instant and its window lasts, every non-empty request is refused and this stays so |
| `LoginLimiterPanics.PartlyRecordedSealed` | src/auth.rs:432-449 | recording that stops anywhere does not open such a limiter |
| `LoginLimiterPanics.RecoveringSealed` | src/auth.rs:316-330 | nor does a recovery, truncation included, that stops anywhere |
| `LoginLimiterPanics.DamageFailsClosed` | src/auth.rs:301-315 | after recovery from structural damage no key is admitted until a full window has passed, whatever requests, successes, panics, damage and recoveries come in between, a recovery not stopping between the two stores that answer a full map |
| `LoginLimiterObject.PruneHistory` | src/auth.rs:484-488 | the loop keeps exactly the live attempts, in order |
| `LoginLimiterObject.UniqueKeys` | src/auth.rs:362-367 | the loop lists each key once |
| `LoginLimiterObject.FullIsBlocked` | src/auth.rs:416-430 | asking the chosen entries and buckets in any order decides the same question |
| `LoginLimiterObject.LoginLimiter.constructor` | src/auth.rs:277-291 | an empty limiter with at least one slot and one bucket |
| `LoginLimiterObject.LoginLimiter.CleanupExpired` | src/auth.rs:468-482 | performs the cleanup transition in place, passing only through states that have lost nothing but expired attempts |
| `LoginLimiterObject.LoginLimiter.CleanPeriodically` | src/auth.rs:461-466 | counts the call and cleans up every 64th time |
| `LoginLimiterObject.LoginLimiter.LockState` | src/auth.rs:293-335 | a poisoned lock is recovered, a sound one returned as it is; every state on the way is one of recovery |
| `LoginLimiterObject.LoginLimiter.RetainLive` | src/auth.rs:469-472 | the entries are pruned one by one in place and removed when nothing is left |
| `LoginLimiterObject.LoginLimiter.RestoreSound` | src/auth.rs:316-330 | cleanup and truncation in place arrive at the recovered state |
| `LoginLimiterObject.LoginLimiter.ChooseTargets` | src/auth.rs:388-414 | the loop arrives at the planned entries and buckets, passing only through pruned states |
| `LoginLimiterObject.LoginLimiter.RecordUnlessFull` | src/auth.rs:416-449 | charges all chosen entries and buckets, or none, passing only through states with part of the plan recorded |
| `LoginLimiterObject.LoginLimiter.CheckAndRecordAttempts` | src/auth.rs:354-450 | the whole call is the specified transition on the locked state, with its guards for a zero limit, a zero window and no keys; every state it passes through is one of locking, pruning or partly recording; it is admitted exactly when every key it names has fewer than `max` attempts less than a window old in what guards the key |
| `LoginLimiterObject.LoginLimiter.Success` | src/auth.rs:457-459 | removes exactly the key's own entry, in one update after locking; the key has no entry afterwards, and every other entry and every bucket is as it was found |
| `DirectoryCache.EvictionIsDetermined` | src/directory_cache.rs:343-355 | where ticks are distinct, what survives eviction is determined by what was there: the most recently used records that fit |
| `DirectoryCache.DirectorySnapshotCache.PruneExpired` | src/directory_cache.rs:372-384 | removes exactly the records that have lived for the time to live and keeps the byte total exact |
| `DirectoryCache.DirectorySnapshotCache.Cached` | src/directory_cache.rs:266-283 | returns the record of exactly this key exactly while it has not lived for the time to live, and gives it the next tick of the wrapping use clock |
| `DirectoryCache.DirectorySnapshotCache.MakeRoom` | src/directory_cache.rs:343-355 | evicts records of the lowest ticks, no more than needed, until the new bytes fit |
| `DirectoryCache.DirectorySnapshotCache.Insert` | src/directory_cache.rs:312-369 | stores the snapshot or an oversized marker under the global bound, replacing only this key and evicting only records of the lowest ticks; a record that cannot fit leaves the cache unchanged |
| `DirectoryCache.InsertAddsOnlyItsSnapshot` | src/directory_cache.rs:312-369 | afterwards the cache holds this snapshot and otherwise only snapshots it held before |
| `StorageAuthority.StepKeepsCounters` | src/storage_authority.rs:63-154 | every step keeps the generation equal to the number of publications modulo 2^64 |
| `StorageAuthority.StepKeepsLocks` | src/storage_authority.rs:63-107 | no reader holds the lock while a writer does |
| `StorageAuthority.StepKeepsClean` | src/storage_authority.rs:85-107 | a clean namespace is the one published last |
| `StorageAuthority.StepKeepsSnapshots` | src/directory_cache.rs:234-264 | every cached or loading snapshot is a scan of the namespace its generation published |
| `StorageAuthority.StepInvariant` | src/storage_authority.rs:63-154 | every atomic step keeps the whole invariant |
| `StorageAuthority.RunInvariant` | src/storage_authority.rs:63-154 | the invariant holds in every state of every run |
| `StorageAuthority.SameGenerationNoMutation` | src/storage_authority.rs:63-83 | between two clean reads of one generation, less than a whole cycle of the counter apart, nothing was mutated |
| `StorageAuthority.CachedListingIsCurrent` | src/web/files/browser.rs:212-270 | what the cache hands to the holder of a clean read guard is what scanning the directory now would give |
| `StorageAuthority.DroppedWriterIsSticky` | src/storage_authority.rs:85-97 | a writer that leaves without publishing leaves recovery required until someone publishes |
| `StorageAuthority.FlagIsHistory` | src/storage_authority.rs:85-154 | in every run recovery is required exactly while nothing was published yet or a mutation was marked since |
| `StorageAuthority.WriterIsToldOfOwedWork` | src/storage_authority.rs:85-107 | what a writer learns on entry about work left over is exactly that |
| `StorageAuthority.PruningIsAStep` | src/directory_cache.rs:372-384 | pruning the cache object is a step of the system |
| `StorageAuthority.LookupIsAStep` | src/directory_cache.rs:266-283 | looking up in the cache object is a step of the system |
| `StorageAuthority.InsertionIsAStep` | src/directory_cache.rs:312-369 | inserting into the cache object is a step of the system |
| `FileOperations.Storage.FinishClean` | src/storage_authority.rs:150-154 | publishes one generation; needs that no intent is unresolved |
| `FileOperations.Storage.AcquireMutation` | src/file_ops/upload_recovery.rs:51-60 | a writer enters only after reconciling what was left behind, announces tombstones found on the way, and is dirty from then on |
| `FileOperations.Storage.RecoverBeforeUnlock` | src/file_ops/upload_recovery.rs:177-201 | one recovery attempt before unlocking: success publishes and announces tombstones that were found, failure leaves recovery required |
| `FileOperations.Storage.RenameEntry` | src/file_ops.rs:292-436 | which combination of outcomes gives which report, both ways, and that the namespace is published exactly after no session, durable success, or an uncertain outcome that recovered |
| `FileOperations.Storage.DeleteEntry` | src/file_ops.rs:583-713 | the same for deletion, with every tombstone, its own or found, announced to the cleanup worker, and nothing else |
| `FileOperations.Storage.FinishUncertainDelete` | src/file_ops.rs:438-553 | an ambiguous deletion is audited as uncertain and published only after recovery |
| `FileOperations.Storage.CreateEntry` | src/file_ops.rs:205-290 | the same for directory creation, which writes no journal |
| `FileOperations.Storage.AcquireCleanRead` | src/file_ops/upload_recovery.rs:62-85 | a reader is admitted exactly on a clean namespace, after performing recovery itself where required |
| `FileOperations.Storage.Abandon` | src/storage_authority.rs:85-107 | a cancelled writer leaves recovery required and publishes nothing |
| `FileOperations.Storage.Serve` | src/file_ops.rs:186-713 | over any sequence of operations and outcomes a clean namespace has no unresolved intent, the generation moves only by publishing one, and every durable report published |
| `CleanupWorker.StepInvariant` | src/storage_cleanup.rs:118-321 | every atomic action of requesters and worker keeps the invariant |
| `CleanupWorker.ReachableInvariant` | src/storage_cleanup.rs:98-321 | the invariant holds under every interleaving |
| `CleanupWorker.RequestsAreNotLost` | src/storage_cleanup.rs:118-206 | a stored request has the flag standing for it, or a later pass under way or about to store the flag again, or a later pass that finished with nothing left behind, or shutdown has begun |
| `CleanupWorker.WaitsAreWoken` | src/storage_cleanup.rs:208-235 | no wait sleeps through work or shutdown: a permit is there or on its way |
| `CleanupWorker.WakeupBeginsPass` | src/storage_cleanup.rs:154-178 | a wake-up with work pending begins a pass within the worker's own next five actions |
| `CleanupWorker.RetryDeadlineBeginsPass` | src/storage_cleanup.rs:203-235 | in every run, from a wait to retry without shutdown, the deadline and the worker's own next two actions begin a pass |
| `CleanupWorker.NoPassBeforeDeadline` | src/storage_cleanup.rs:219-235 | whatever permits and requests arrive, no pass begins before that deadline |
| `CleanupWorker.FailureIsRetried` | src/storage_cleanup.rs:178-235 | after every failure of a pass, absent shutdown, some continuation begins a later pass |
| `CleanupWorker.CleanWasScanned` | src/storage_cleanup.rs:178-303 | a pass counts as finished with nothing left behind only after a batch that reported the scan complete |
| `CleanupWorker.PassRunsToItsEnd` | src/storage_cleanup.rs:268-303 | a pass goes on batch by batch, however many there are, until one reports the scan complete |
| `CleanupWorker.LeavesOnShutdown` | src/storage_cleanup.rs:154-321 | wherever the worker looks at the shutdown flag it leaves at once if the flag stands |
| `CleanupWorker.AtMostOneBatchAfterShutdown` | src/storage_cleanup.rs:237-303 | at most one batch starts after shutdown was stored, exactly when the store fell between a batch's check and its launch |
| `CleanupWorker.PassReachesLaunch` | src/storage_cleanup.rs:237-321 | an undisturbed pass reaches its first launch |
| `CleanupWorker.StartBeginsPass` | src/storage_cleanup.rs:123-178 | a started worker with work pending begins a pass |
| `CleanupWorker.BatchCanFollowShutdown` | src/storage_cleanup.rs:275-290 | a concrete run in which a batch starts after shutdown was stored |
| `TlsPaths.Walk` | src/tls_files.rs:169-261 | recursive resolution never returns more budget than it was given and always ends in a directory |
| `TlsPaths.WorkSplits` | src/tls_files.rs:302-307 | working off a path and then the rest is resolving the path first and continuing with the rest |
| `TlsPaths.WorklistIsRecursion` | src/tls_files.rs:169-261 | the worklist that links prepend to is recursive path resolution, limits and errors included |
| `TlsPaths.WalkIsValidated` | src/tls_files.rs:169-261 | every directory on the way, through links and parents alike, passed the ownership and mode checks |
| `TlsPaths.LargerBudgetSamePlace` | src/tls_files.rs:187-235 | the limits only cut resolution short: a path that resolves does so alike under any larger budget |
| `TlsPaths.ConvertPath` | src/tls_files.rs:283-300 | path components become steps, and unsupported ones are refused |
| `TlsPaths.ResolvePending` | src/tls_files.rs:169-261 | the loop ends, also on cyclic links, with the place that recursive resolution gives |
| `TlsResolution.ResolvesExactly` | src/tls_files.rs:169-261 | resolution yields exactly what the trace of directories says, place and error alike: an absolute component stands at the root, `..` removes exactly the last directory and stays at the root, a name leads to the entry of that name in the last directory, a link to its target, with at most 256 names and 40 links |
| `TlsResolution.AbsoluteLinkIsPlaceless` | src/tls_files.rs:189-226 | where an absolute link leads does not depend on where the link stands |
| `TlsResolution.OpenValidatedFile` | src/tls_files.rs:169-261 | opens a file exactly if the path leads to it, it is acceptable, and its name in that directory still leads to it with unchanged metadata |
| `TlsResolution.OpenedExactly` | src/tls_files.rs:169-261 | the same of the model function |
| `TlsResolution.RefusedPath` | src/tls_files.rs:169-261 | where the path itself is refused, the error is that of its trace |
| `TlsResolution.DirectoryChecksMean` | src/tls_files.rs:309-327 | a directory passes exactly if root or the service owns it and, digit by digit, nobody else can write, or it is sticky and root's |
| `TlsResolution.FileChecksMean` | src/tls_files.rs:68-97 | a file passes exactly by owner, permission digits, link count and size, for keys and certificates |
| `TlsPaths.OpenedIsValidated` | src/tls_files.rs:231-358 | an opened file is the inspected one with unchanged metadata, acceptable, and below validated directories only |
| `SingleFlight.StepInvariant` | src/disk_stats.rs:50-139 | every atomic action of callers, probe and waiters keeps the invariant |
| `SingleFlight.StepMovesOneWaiter` | src/disk_stats.rs:76-88 | a step moves at most one waiter, and only as the protocol says |
| `SingleFlight.RunInvariant` | src/disk_stats.rs:50-139 | the invariant holds under every interleaving |
| `SingleFlight.OneProbeAtATime` | src/disk_stats.rs:104-139 | a probe is outstanding exactly while its flight is registered, so there is at most one |
| `SingleFlight.WaitersGetTheirFlight` | src/disk_stats.rs:59-88 | a waiter is served the outcome of the very flight it joined |
| `SingleFlight.NoLostWakeup` | src/disk_stats.rs:66-88 | no sleeper misses the end of its flight |
| `SingleFlight.ProbesAreSpaced` | src/disk_stats.rs:104-139 | a probe starts only once every earlier result has outlived its time to live, which differs for errors |
| `SingleFlight.AnswersAreFresh` | src/disk_stats.rs:104-111 | in every run an answer from the entry was the result of the last probe, less than 250 milliseconds old, or 100 for a failure |
| `SingleFlight.LookupExactly` | src/disk_stats.rs:104-118 | in every run a lookup joins the probe under way, or answers with such a recent result, or else starts exactly one probe |
| `SummaryCache.StepInvariant` | src/share_summary_cache.rs:33-80 | every atomic action keeps the invariant |
| `SummaryCache.RunInvariant` | src/share_summary_cache.rs:33-80 | the invariant holds under every interleaving |
| `SummaryCache.AnswersAreHonest` | src/share_summary_cache.rs:33-80 | a cached answer is a successful load begun less than one time to live ago, a waiter gets the load it joined or is cut off only where that load ended without a result, and at most one load is without a result |
| `SummaryCache.NoLostWakeup` | src/share_summary_cache.rs:70-79 | no sleeper misses the end of its load |
| `SummaryCache.WokenIsAnswered` | src/share_summary_cache.rs:70-79 | a sleeper whose load has sent a result is answered with it by its own next two steps |
| `SummaryCache.GetExactly` | src/share_summary_cache.rs:33-69 | in every run a request is answered with a load that succeeded and began less than 1000 milliseconds ago if there is one, else joins the load under way, else starts exactly one |
| `SummaryCache.OneRecentLoad` | src/share_summary_cache.rs:33-69 | at most one load is that recent, so the answer is determined |
| `AdmittedFiles.AdmittedFile.constructor` | src/admitted_file.rs:29-39 | a new reader stands at the start with an empty buffer and no history |
| `AdmittedFiles.AdmittedFile.TakeBuffered` | src/admitted_file.rs:53-58 | hands out the bytes at the consumer's position |
| `AdmittedFiles.AdmittedFile.StartRead` | src/admitted_file.rs:80-96 | gives the file and the emptied buffer to a worker and keeps the offset |
| `AdmittedFiles.AdmittedFile.PollRead` | src/admitted_file.rs:43-98 | answers from the file at the consumer's position for any short read and any room, also after failed reads; fails only by the worker or for want of the file; what completed, pending, failed and lost reads leave behind |
| `AdmittedFiles.AdmittedFile.StartSeek` | src/admitted_file.rs:102-133 | when a seek is busy, underflows, overflows or starts, and that a relative one starts from the consumer's position although the file's cursor is ahead |
| `AdmittedFiles.AdmittedFile.PollComplete` | src/admitted_file.rs:135-151 | reports the target reached, or with no seek pending the consumer's position unless the offset is stale; what failed and lost seeks leave behind |
| `AdmittedFileHistories.FlagsAreHistory` | src/admitted_file.rs:42-152 | whether the offset is in use or stale and whether a read is in flight are facts about the calls and answers so far |
| `AdmittedFileHistories.UnderflowsExactly` | src/admitted_file.rs:107-138 | over every history a position query underflows exactly when bytes of the last buffer were delivered and a further read was started since, and a relative seek exactly when moreover that read is no longer in flight |
| `AdmittedFileHistories.FailedReadBreaksRelativeSeek` | src/admitted_file.rs:68-133 | a run in which a failed read makes the next relative seek underflow |
| `AdmittedFileHistories.PendingReadBreaksPosition` | src/admitted_file.rs:80-138 | a run in which a read merely in flight makes a position query underflow |
| `AdmittedFileHistories.LostReadBreaksPosition` | src/admitted_file.rs:59-138 | the same for a read whose worker was lost |
| `AdmittedFileHistories.DeliveriesAreOneStretch` | src/admitted_file.rs:28-152 | between two seeks, through failures and losses, all that was delivered is one stretch of the file |
| `AdmittedFileHistories.SeekLeadsToTarget` | src/admitted_file.rs:102-151 | a seek that completes reports the offset asked for, the size plus the delta, or the position reached when it was asked plus the delta, and the consumer is there |
| `AdmittedFileHistories.QueryReportsPosition` | src/admitted_file.rs:135-139 | with no seek pending and no stale offset a query reports the position reached |
| `AdmittedFileHistories.Run` | src/admitted_file.rs:28-152 | any requests, through failed and lost reads and seeks, make a history in which every call is answered as it should be |
| `WriteDeadlines.ArmedAtEarliestStall` | src/transport.rs:68-79 | the timer runs exactly while something is stalled and dates from the earliest stall |
| `WriteDeadlines.TimerMeasuresStall` | src/transport.rs:53-66 | the timer has expired exactly when some stall has lasted the idle period |
| `WriteDeadlines.SilentTransport` | src/transport.rs:53-79 | where nothing was ever accepted, a stall has lasted the idle period exactly when the first poll lies that far back |
| `WriteDeadlines.ProgressResets` | src/transport.rs:112-157 | a write that accepted something starts the count anew: from itself if it was partial, else from the next poll |
| `WriteDeadlines.ConnectionLimitedIo.TrackIncompleteWrite` | src/transport.rs:68-79 | arms the timer once and clears it when nothing is incomplete |
| `WriteDeadlines.ConnectionLimitedIo.PollWrite` | src/transport.rs:112-157 | the outcome is the one the history of polls calls for: an idle error exactly when the inner write is pending and a stall has lasted long enough |
| `WriteDeadlines.ConnectionLimitedIo.PollFlush` | src/transport.rs:159-187 | the same for a flush |
| `WriteDeadlines.ConnectionLimitedIo.PollShutdown` | src/transport.rs:189-217 | the same for a shutdown |
| `WriteDeadlines.ConnectionLimitedIo.PollWriteVectored` | src/transport.rs:223-267 | the separate body for vectored writes judges them like a write of the joined buffers |
| `UploadReplay.ParseReplayPrefix` | src/upload_operation.rs:241-309 | the loop is the fold of the prefix rules, stopping at the first error |
| `UploadReplay.ReplayFingerprint` | src/upload_operation.rs:153-230 | the loop continues from the prefix state and finishes with the digest of the metadata or the first error, a stream that breaks before the next field included |
| `UploadReplay.StepsAgree` | src/upload_operation.rs:171-309 | before the file, the two readers treat a field alike, errors included |
| `UploadReplay.SplitDoesNotMatter` | src/upload_operation.rs:153-309 | the outcome does not depend on how much of the form went into the prefix |
| `UploadReplay.TakeUploadId` | src/upload_operation.rs:41-93 | finds the first ID of the form exactly when nothing before it is in the way, with exactly the fields up to it as prefix, and otherwise names what was in the way, a stream that breaks while searching included; a header wins and reads nothing |
| `UploadReplay.SelectAndReplay` | src/upload_operation.rs:41-230 | whatever the search for the ID consumed, replaying prefix and rest is replaying the form |
| `UploadAcceptance.ReaderAcceptsWellFormed` | src/upload_operation.rs:168-228 | the field loop gets through exactly the forms with at most six distinct known fields, sound contents and the file last, and its variables then say what the fields say |
| `UploadAcceptance.ReplayAcceptsExactly` | src/upload_operation.rs:153-390 | a replay succeeds exactly on well-formed forms with a file, the required token and, for administrators, a path |
| `UploadAcceptance.ReplayReportsForm` | src/upload_operation.rs:343-390 | the metadata says of each field what the form says, and the default where it is silent |
| `UploadAcceptance.OrderDoesNotMatter` | src/upload_operation.rs:153-230 | reordering the fields before the file changes neither acceptance nor metadata |
| `UploadRefusal.RefusedExactly` | src/upload_operation.rs:153-390 | a replay reports each error exactly if the first field that is not in order is to blame for it, or all are and the stream breaks off or the form lacks something |
| `UploadRefusal.StepBlames` | src/upload_operation.rs:168-228 | one field is refused with exactly the error it is to blame for, said of it and the fields before it |
| `UploadAcceptance.UploadFormState.constructor` | src/policy.rs:68-77 | a new form has seen nothing |
| `UploadAcceptance.UploadFormState.Observe` | src/policy.rs:80-134 | accepts a field exactly when it is within the limit, known, new, and before the file unless it is the overwrite option; which error each refusal gives |
| `UploadAcceptance.ObserveAll` | src/policy.rs:79-139 | observing a whole form succeeds exactly on a good shape within the limit that has a file |
| `UploadAcceptance.WellFormedIsShape` | src/upload_operation.rs:168-228 | the structural part of a replay is the policy's shape; the administrator's form additionally ends with the file |
| `UploadAcceptance.ReplayFollowsPolicy` | src/upload_operation.rs:153-390 | a replay accepts what the live policy with six fields accepts, contents and authorization permitting |
| `ForwardedFor.IsTrustedProxyPeer` | src/proxy.rs:53-60 | trust is equality of canonical addresses with some configured proxy |
| `ForwardedFor.WalkOneValue` | src/proxy.rs:96-101 | the inner loop is the walk over one value's candidates, and tells whether it stopped short |
| `ForwardedFor.WalkAllValues` | src/proxy.rs:93-103 | the outer loop is the walk over all values from the last to the first |
| `ForwardedFor.ValidatedEffectiveClientIp` | src/proxy.rs:78-104 | untrusted peers and other modes yield the peer, otherwise the walk |
| `ForwardedFor.ValidatedProxyClientIp` | src/proxy.rs:16-35 | the same walk without a peer address |
| `ForwardedFor.CanonicalMeans` | src/proxy.rs:37-51 | exactly the IPv4-mapped addresses become IPv4 addresses |
| `ForwardedFor.SplitMeans` | src/proxy.rs:94-96 | candidates are the text between commas, all of it |
| `ForwardedFor.TrimMeans` | src/proxy.rs:94-96 | exactly the blanks at both ends of a candidate are dropped |
| `ForwardedFor.WalkFindsRightmostUntrusted` | src/proxy.rs:92-103 | the walk yields the rightmost hop that is not trusted, or the leftmost one |
| `ForwardedFor.WalkEndsSomewhere` | src/proxy.rs:92-103 | there is exactly one such hop |
| `ForwardedFor.LeftPartIsIrrelevant` | src/proxy.rs:92-103 | nothing to the left of an untrusted hop influences the outcome |
| `ForwardedFor.ValuesAreChain` | src/proxy.rs:93-103 | on text, walking the values is walking the flattened chain |
| `ForwardedFor.ClientIsRightmostUntrusted` | src/proxy.rs:78-104 | the resolved client of a textual chain is its rightmost untrusted hop, or its leftmost one |
| `ForwardedFor.StopsExactly` | src/proxy.rs:96-101 | the walk leaves candidates aside exactly unless every hop but the leftmost is trusted and the leftmost is an address |
| `ForwardedFor.BinaryValueRefuses` | src/proxy.rs:94-95 | a value that is not text refuses the request exactly when the walk arrives at the leftmost hop to its right, trusted or not, or needs a hop that is no address |
| `ForwardedFor.BinaryValueHidesUntrustedHop` | src/proxy.rs:94-101 | for every untrusted client whose printed address is the one hop of a trusted peer: it is the answer, and the request is refused once such a value stands to its left |
| `ForwardedFor.HiddenHopExample` | src/proxy.rs:94-101 | two addresses for which that happens |
| `ContainerProxy.SanitizeForwardingHeaders` | src/container_proxy.rs:436-462 | succeeds exactly when every kept candidate is an address; then three headers are removed and one canonical chain ending in the peer is set; otherwise the headers are untouched |
| `ContainerProxy.CollectForwarded` | src/container_proxy.rs:441-454 | the loops collect all candidates in canonical form, or fail at the first bad one |
| `ContainerProxy.SplitJoin` | src/container_proxy.rs:459 | splitting and trimming undoes joining |
| `ContainerProxy.TrustsIsTrusted` | src/container_proxy.rs:107-188 | the proxy's policy and the server's configuration trust the same peers |
| `ContainerProxy.RewrittenChain` | src/container_proxy.rs:441-460 | the rewritten value stands for the original addresses followed by the peer |
| `ContainerProxy.PassOn` | src/container_proxy.rs:377-462 | a request passed on is attributed to the client it would have been attributed to directly; when it is refused, which an untrusted peer's never is |
| `CredentialBlob.LittleEndianMeans` | src/webauthn.rs:232-238 | lengths are written with the lowest byte first |
| `CredentialBlob.FirstHalfPositions` | src/webauthn.rs:192-212 | where version, identifier, transports and user handle lie in a stored form |
| `CredentialBlob.SecondHalfPositions` | src/webauthn.rs:192-212 | where static state, dynamic state and metadata lie |
| `CredentialRefusal.RefusedExactly` | src/webauthn.rs:135-167 | a blob is refused exactly for what its bytes show: nothing, another version, or the first component after accepted ones that is cut short, rejected, or followed by more |
| `CredentialBlob.Output.PushVec` | src/webauthn.rs:232-238 | appends the length and the component, or fails exactly when the length does not fit 32 bits |
| `CredentialBlob.ToBlob` | src/webauthn.rs:192-212 | writes the layout exactly when every component fits |
| `CredentialBlob.Input.TakeU8` | src/webauthn.rs:240-248 | consumes one byte exactly when there is one |
| `CredentialBlob.Input.TakeArray` | src/webauthn.rs:261-269 | consumes so many bytes exactly when there are as many |
| `CredentialBlob.Input.TakeVec` | src/webauthn.rs:250-259 | consumes a length-prefixed component exactly when the unread bytes start with one |
| `CredentialBlob.FromBlob` | src/webauthn.rs:135-167 | reads a blob exactly when it is the stored form of a credential with acceptable components, and then as that credential; otherwise blames the first problem met |
| `CredentialBlob.DecodeMeans` | src/webauthn.rs:135-167 | component-by-component reading succeeds exactly on stored forms |
| `CredentialBlob.TrailingExactly` | src/webauthn.rs:154-158 | trailing data is blamed exactly when a shorter part is a stored form |
| `CredentialBlob.StoredFormIsUnique` | src/webauthn.rs:134-212 | no truncation or extension of a stored form is a stored form, and no blob stores two credentials |
| `CredentialBlob.WriteThenRead` | src/webauthn.rs:134-212 | writing and reading back gives the credential |
| `CredentialBlob.ReadThenWrite` | src/webauthn.rs:134-212 | reading and writing back gives the same bytes |

## Left out

- Content-Type and boundary parameter parsing of the multipart guard: single-function parsing; the scanner is modelled for every boundary it can be given.
- The two-limiter composition for administrator logins: two independent calls of the modelled limiter.
- Snapshot building and the removal of abandoned load registrations in the directory cache: bookkeeping outside the accounting and freshness results; each cache call sees one instant.
- Writers outside the server: the listing results speak about mutations made through the storage authority.
- FileOperations.Storage.RenameEntry: the outcomes of journal, filesystem and database are inputs; what the journal and the shares table contain is not modelled.
- FileOperations.Storage.DeleteEntry: as above.
- The recovery of journal intents itself: an outcome here.
- TlsResolution.OpenValidatedFile: the filesystem does not change while the path is resolved, only between inspecting and opening the file; relative paths arrive joined to the working directory, and the second check after reading is not modelled.
- Timeouts of individual callers and the non-waiting peek of the disk statistics cache: they start no step that the model lacks, and leaving is always possible.
- The read side of the connection deadline: a single timer comparison.
- UploadReplay.ReplayFingerprint: the digest of the metadata is a parameter, and a file arrives with its name, size and digest.
- ForwardedFor.ValidatedEffectiveClientIp: trimming removes blanks and tabs, the only white space header text can contain.
- Password hashing, one-time codes, signature verification, range requests, routing, templates, the database and configuration: foreign code or single-function logic.
