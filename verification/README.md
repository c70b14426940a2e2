# Verified models of the transfer bot

Dafny models of the parts of the repository whose behaviour is hardest to see from the code, each with the
properties it is there for. `dafny verify dfyconfig.toml` checks everything.

| files | what is modelled |
|---|---|
| `JsonText`, `JsonScanner`, `JsonDocuments` | the duplicate-key check on JSON files: a string reader and a stack machine over UTF-16 code units, and what it does to every laid-out document |
| `TaskStateMachine`, `TaskProtocol`, `TaskAnswers`, `TaskClaims`, `TaskTimestamps`, `TaskRepository`, `TaskQueueContract` | changing a row of `tasks`: the transition table, any number of calls interleaved at every statement, when a write commits and what a call answers, who holds a row and what the answers say about it, when stamps increase, calls that do not overlap, and the identity of the queue messages they lead to |
| `TableRebuild`, `MigrationLock`, `DuplicateDrives` | schema migration: rebuilding a table under crashes, the lease that keeps migrations apart, the cleanup of duplicate drives |
| `LruCache`, `WorkerPool` | the cache of handled messages and the batch worker pool |
| `DriveBindings` | drive bindings in D1 behind four derived caches |
| `JsNumbers`, `JsStrings`, `Numerals`, `AddressPolicy` | JavaScript's 32-bit and big-integer operators, `split` and `parseInt`, positional notation, and the blocked-address decision built on them |
| `Arithmetic`, `FiniteSets`, `Wrappers` | what several of these share: integer division and powers of two, sizes of sets, options |
| `CircuitBreaker`, `UpdateThrottle` | a three-state breaker with overlapping calls, and a rate limit over runs |

Code that updates objects step by step is a class whose methods are proved against a specification function;
properties of runs are lemmas about that function. Systems of many processes are step relations: a run is a sequence
of states and of atomic actions, and a database statement is one action.

## What the code does not promise

Some statements one would expect are false of the code. Each is given here with the exact condition under which it
holds; where that condition does not show a failing case by itself there is a concrete one beside it.

- A claim that is answered with yes was made. Two callers can both be told yes while the row names only one
  (`TaskClaims.BothClaimersAreToldYes`). The answer is wrong exactly when the call's write missed, because the status
  had moved since its read, and its second read found the target status (`TaskClaims.ClaimAnswerWrongExactly`); it is
  right when nothing commits between the call's own read and write (`TaskClaims.UndisturbedClaimIsTrue`). `claimTask`
  documents the stronger promise.
- Timestamps of one row increase. Two overlapping retries can be handed one queue attempt
  (`TaskTimestamps.OverlappingRetriesShareAttempt`). The stamps of a run strictly increase exactly when at every commit
  the call's clock was ahead of the row, or the row it had read is no older than the row it overwrites
  (`TaskTimestamps.StampsRiseExactly`).
- A rebuild that was interrupted transforms its rows once. A cut right after the second rename makes it twice
  (`TableRebuild.CutAfterSwapAppliesTwice`). All schedules of crashes leave the rows transformed once if and only if the
  transform is idempotent on the rows it started from (`TableRebuild.OnceExactlyWhenIdempotent`).
- The message cache keeps to its size bound: exactly when the bound is positive
  (`LruCache.BoundKeptExactlyWhenPositive`).
- The pool fills every slot: exactly when there are workers or no items (`WorkerPool.FinalResults`). A processed batch
  is complete: exactly when it is not empty (`WorkerPool.ProcessedBatchStatus`).
- A folder change leaves the drive caches right. It does not when the owner is cached and another user is passed
  (`DriveBindings.StaleAfterForeignFolderChange`); the contract of `UpdateRemoteFolder` has the exact condition. The
  only caller in the repository passes the owner (src/dispatcher/Dispatcher.js:2015), so there the caches stay right
  (`SetUserUploadPath`).
- An active drive of the user can be made the default. The unique index on active defaults is checked row by row, so
  the statement is rejected when the database comes to the new default before the old one
  (`DriveBindings.SwapCanBeRejected`). That can happen if and only if the user has another default at the time of the
  call (`DriveBindings.SwapRejectableExactly`); without one every order accepts it.
- The breaker's half-open successes come in a row. One can come before a failed probe and one after it
  (`CircuitBreaker.SuccessesSurviveReopening`). At a closing all of them fall after a given moment exactly when the
  success count was zero at that moment (`CircuitBreaker.SuccessesInARowExactly`).
- Every JSON document is accepted: a document whose root is neither object nor array makes the check throw, and no
  other (`JsonDocuments.ScanDocument`).

## Model

| member | source | states |
|---|---|---|
| `JsonText.ParseString` | scripts/check-json-duplicates.js:5-42 | the string reader, with its escapes and its failure, computes `ScanString` |
| `JsonText.ScanStringDecodes` | scripts/check-json-duplicates.js:8-40 | reading the inside of any legal literal (raw, short or hexadecimal escapes in any mixture) yields the string it denotes and stops just past the quote |
| `JsonText.QuotedStringScans` | scripts/check-json-duplicates.js:5-42 | unescaping undoes every quoting of section 7 of RFC 8259, wherever the literal stands |
| `JsonText.OddEscapes` | scripts/check-json-duplicates.js:13-36 | escapes the standard forbids: an unknown unit, or a `u` without four hexadecimal digits, stands for itself; only a backslash at the very end is an error |
| `JsonScanner.SkipWhitespace` | scripts/check-json-duplicates.js:44-51 | stops at the first character that is not a space, tab, line feed or carriage return |
| `JsonScanner.StepProgress` | scripts/check-json-duplicates.js:89-244 | every turn of the main loop keeps the frames sane and consumes text or fills an awaited value, though a primitive may consume nothing; so the scanner halts or throws on every text |
| `JsonScanner.Scanner.CurrentPath` | scripts/check-json-duplicates.js:58-66 | the location of the innermost frame |
| `JsonScanner.Scanner.MarkValueComplete` | scripts/check-json-duplicates.js:82-87 | the frame below then expects a comma or its end |
| `JsonScanner.Scanner.TakeValue` | scripts/check-json-duplicates.js:139-228 | the branches for an awaited value in objects and arrays are the specified move |
| `JsonScanner.Scanner.Close` | scripts/check-json-duplicates.js:180-184 | a closing bracket is the specified move |
| `JsonScanner.Scanner.ReadKey` | scripts/check-json-duplicates.js:118-130 | a key is read, reported if the object had it, and remembered |
| `JsonScanner.Scanner.ObjectTurn` | scripts/check-json-duplicates.js:110-188 | one turn inside an object is the specified move or the specified error |
| `JsonScanner.Scanner.ArrayTurn` | scripts/check-json-duplicates.js:189-242 | one turn inside an array is the specified move or the specified error |
| `JsonScanner.Scanner.StartTurn` | scripts/check-json-duplicates.js:96-108 | outside every bracket only an opening one is accepted |
| `JsonScanner.Scanner.DetectDuplicateKeys` | scripts/check-json-duplicates.js:53-247 | on every text the program answers, or throws, as the run of the stack machine |
| `JsonDocuments.ValueRun` | scripts/check-json-duplicates.js:139-228 | from any surrounding stack, scanning a printed value adds exactly the reports of that tree and takes it as the awaited value |
| `JsonDocuments.ItemsRun` | scripts/check-json-duplicates.js:189-242 | the same for the rest of an array |
| `JsonDocuments.MembersRun` | scripts/check-json-duplicates.js:110-188 | the same for the rest of an object, with the keys seen so far |
| `JsonDocuments.ScanDocument` | scripts/check-json-duplicates.js:53-247 | for every document, every layout with spaces, tabs, line feeds and carriage returns (section 2 of RFC 8259) and every escaping: the scan reports the repeated keys of the tree in document order, or throws when the root is neither object nor array |
| `JsonDocuments.MemberReportsCounted` | scripts/check-json-duplicates.js:118-130 | an object reports its members minus its distinct new keys, plus what is inside |
| `JsonDocuments.ReportsCounted` | scripts/check-json-duplicates.js:118-130 | the number of reports is the sum over all objects of members minus distinct decoded keys |
| `JsonDocuments.CleanExactlyWhenUnique` | scripts/check-json-duplicates.js:121-125 | nothing is reported if and only if every object's names are unique (section 4 of RFC 8259) |
| `JsonDocuments.ScanDecidesUniqueness` | scripts/check-json-duplicates.js:53-247 | the scan of any laid-out object or array finds that many duplicates, and none exactly when names are unique |
| `TaskStateMachine.EventForTarget` | src/domain/task-state-machine.js:124-132 | the event chosen for a bare status leads to that status and is neither the streaming start nor a reset |
| `TaskStateMachine.EdgesExactly` | src/domain/task-state-machine.js:42-122 | which status can follow which: COMPLETED and CANCELLED absorb, FAILED does not |
| `TaskStateMachine.TableExactly` | src/domain/task-state-machine.js:42-122 | the table by kinds of event: plain steps go on by one stage or repeat, endings take any transfer under way, a retry all but what ended well or by the user, resets go back |
| `TaskProtocol.StatusPath` | src/repositories/TaskRepository.js:788-892 | under every interleaving each change of status is an edge of the table, whatever happened between read and write |
| `TaskProtocol.FinalStatusesAbsorb` | src/repositories/TaskRepository.js:834-839 | once COMPLETED or CANCELLED, always so |
| `TaskProtocol.CallStoryHolds` | src/repositories/TaskRepository.js:813-892 | what is known of a call at each of its phases, over every run |
| `TaskProtocol.ResultsAreTrue` | src/repositories/TaskRepository.js:839-892 | `changed` if and only if the call's own write committed; unblocked means the target status was seen during the call; an unblocked losing call is idempotent if and only if it is not a retry that read a queued row, and if it is one it saw a queued row stamped no earlier than its own timestamp |
| `TaskAnswers.WriteCommitsExactly` | src/repositories/TaskRepository.js:741-775 | in every run a call's write commits if and only if the row still has the status that was read and, under a fence, still names the pair; then status, stamp, owner and lease are as listed, and otherwise nothing changes |
| `TaskAnswers.HolderCommits` | src/repositories/TaskRepository.js:824-839 | a fenced call whose pair the row holds at its write commits if the status is the one it read, and answers `changed` |
| `TaskAnswers.UndisturbedWriteCommits` | src/repositories/TaskRepository.js:788-839 | if nothing commits between read and write, the write commits: always without a fence, and with one if the row held the pair when it was read |
| `TaskAnswers.AnswerExactly` | src/repositories/TaskRepository.js:788-892 | every answer a call gives in any run, field by field, attempt included: it was turned away at its read, or it committed, or it missed and read again |
| `TaskAnswers.UndisturbedHolderChanges` | src/repositories/TaskRepository.js:788-839 | a fenced call that reads an admitted row holding its pair and is not disturbed before its write answers `changed`, with the row at the target status |
| `TaskClaims.IdleTasksUnclaimed` | src/repositories/TaskRepository.js:741-756 | queued and terminal rows carry no claim |
| `TaskClaims.HeldMeansClaimed` | src/repositories/TaskRepository.js:741-756 | a row comes to hold a pair of instance and lease only by an unfenced start event in its name |
| `TaskClaims.FencedWriteNeedsClaim` | src/repositories/TaskRepository.js:762-775 | from a state where a pair is not held, no write fenced with it commits before it is claimed again |
| `TaskClaims.FencedWritersExclude` | src/repositories/TaskRepository.js:824-837 | once a commit gives the row to another pair or to nobody, or is fenced with another pair, no write fenced with the first commits before it is claimed anew |
| `TaskClaims.HeldExactly` | src/repositories/TaskRepository.js:741-756 | a held pair is still held later if and only if every commit that displaced it was followed by one that claimed it again |
| `TaskClaims.NoFencedWriteAfterTheEnd` | src/repositories/TaskRepository.js:824-837 | no fenced write commits after completion or cancellation |
| `TaskClaims.BothClaimersAreToldYes` | src/repositories/TaskRepository.js:645-670 | a run from an idle database and a queued row in which two claimers are both told yes and only one holds it |
| `TaskClaims.ClaimAnswerWrongExactly` | src/repositories/TaskRepository.js:839-871 | the answer of a start event is wrong if and only if its write missed and its second read found the target status; a claim that was made is always answered with yes; `!blocked` and the answer of `claimTask` say the same |
| `TaskClaims.UndisturbedClaimIsTrue` | src/repositories/TaskRepository.js:788-839 | if nothing commits between the call's read and write, the answer is yes if and only if the claim was made |
| `TaskClaims.UnblockedStartHolds` | src/processor/TaskManager.js:1295-1305 | the caller that goes on after an unblocked start event: its pair was claimed, unless the call lost to the target, and is held at any later moment if and only if every displacing commit was followed by a new claim |
| `TaskTimestamps.CommitAdvancesExactly` | src/repositories/TaskRepository.js:87-94 | a committed write is later than the row it overwrites if and only if the clock was ahead of that row or the row read is no older |
| `TaskTimestamps.StampsRiseExactly` | src/repositories/TaskRepository.js:797-837 | over every interleaved run the stamps of the commits strictly increase if and only if that holds at every commit |
| `TaskTimestamps.UndisturbedStampsRise` | src/repositories/TaskRepository.js:797-837 | they do if no commit falls between the read and the write of a call |
| `TaskTimestamps.OverlappingRetriesShareAttempt` | src/repositories/TaskRepository.js:824-891 | a run from an idle database in which two overlapping retries change the row with one stamp and get the same attempt |
| `TaskRepository.UninterruptedIsSchedule` | src/repositories/TaskRepository.js:788-892 | a call that runs alone does what the interleaved system does under that schedule |
| `TaskRepository.TaskRepository.TransitionStatus` | src/repositories/TaskRepository.js:777-892 | every branch of a transition, strict or not: row and result are those of the specification |
| `TaskRepository.TaskRepository.RefreshActiveTaskLiveness` | src/repositories/TaskRepository.js:263-325 | every branch of a liveness refresh, strict or not, likewise |
| `TaskRepository.CallStamps` | src/repositories/TaskRepository.js:87-94 | a call either leaves the row alone or hands out its new and strictly later stamp |
| `TaskRepository.StampsIncrease` | src/repositories/TaskRepository.js:296-324 | over every run of calls that do not overlap the stamps handed out strictly increase, even when the clock goes back |
| `TaskQueueContract.Stringify` | src/domain/task-queue-contract.js:24-31 | the quoting chosen for a string is legal and denotes it |
| `TaskQueueContract.StringifyExactly` | src/domain/task-queue-contract.js:24-31 | unit by unit which escape is written; surrogate pairs stay raw and lone surrogates are escaped (QuoteJSONString in section 25.5.2 of ECMA-262) |
| `TaskQueueContract.StringifiedIsJson` | src/domain/task-queue-contract.js:24-31 | the source is the JSON array of the strings without blanks, in the grammar of the JSON check |
| `TaskQueueContract.NamesAreStored` | src/database/schema.js:21 | the status names in attempt texts are those the table admits |
| `TaskQueueContract.StringifyRestInjective` | src/domain/task-queue-contract.js:24-31 | lists of strings with the same JSON text are equal |
| `TaskQueueContract.SourceInjective` | src/domain/task-queue-contract.js:18-31 | the key source determines topic, type, identifier and normalised attempt |
| `TaskQueueContract.TokenInjective` | src/repositories/TaskRepository.js:871-890 | an attempt text determines its status and stamp |
| `TaskQueueContract.TokenNormal` | src/domain/task-queue-contract.js:18-22 | normalising leaves an attempt text as it is |
| `TaskQueueContract.NormalizedExactly` | src/domain/task-queue-contract.js:18-22 | the attempt without the blanks on either side, and "initial" if nothing else is there |
| `TaskQueueContract.AttemptSourcesDistinct` | src/domain/task-queue-contract.js:18-31 | over every run of calls that do not overlap no two changes of a row lead to the same key source |
| `TableRebuild.Database.Run` | src/database/schema.js:408-414 | one statement has the effect the database gives it; its precondition is that no rename meets a taken or missing name |
| `TableRebuild.Database.CleanupTableRebuildArtifacts` | src/database/schema.js:361-389 | the recovery: which tables it leaves, in every one of the eight situations, and the statements it runs |
| `TableRebuild.Database.ReplaceTable` | src/database/schema.js:408-415 | the rebuild proper leaves the transformed rows and no side table |
| `TableRebuild.Database.RebuildTableForD1` | src/database/schema.js:391-416 | a whole rebuild runs its plan without an error and leaves the rows it should |
| `TableRebuild.RebuildPrefix` | src/database/schema.js:408-415 | where the rows are after each statement |
| `TableRebuild.AttemptSafe` | src/database/schema.js:361-416 | one start, cut off anywhere, recovery included: no statement is rejected and the rows survive |
| `TableRebuild.CrashSafe` | src/database/schema.js:361-416 | any number of cut-off starts and then a whole one: the table holds the original rows transformed once and both side tables are gone |
| `TableRebuild.OnceExactlyWhenIdempotent` | src/database/schema.js:361-416 | every schedule of crashes that completes leaves the rows transformed once, and nothing else, if and only if the transform is idempotent on the rows it started from |
| `TableRebuild.CutAfterSwapAppliesTwice` | src/database/schema.js:380-414 | the schedule that transforms twice: a cut after the second rename |
| `TableRebuild.CanonicalStatusExactly` | src/database/schema.js:604-614 | which stored statuses, and a missing one, end as which of the seven canonical ones |
| `TableRebuild.MigrateTaskExactly` | src/database/schema.js:319-348 | the row transform column by column: what is present stays, what is missing gets its default, and only a row of the default source type gets a reference made up from its message |
| `TableRebuild.TaskMigrationSettles` | src/database/schema.js:640-660 | the row transform leaves alone what an earlier start with another clock has written |
| `TableRebuild.TaskMigrationSurvivesCrashes` | src/database/schema.js:600-663 | the migration of `tasks` survives crashes, every row migrated at the time of one single start |
| `MigrationLock.LeaseStands` | src/database/schema.js:1128-1138 | a lease row stays until its owner releases it or its expiry passes, even when others delete by stale times |
| `MigrationLock.OneHolderPerLease` | src/database/schema.js:1120-1152 | after one process acquires the lock no other does until release or expiry |
| `MigrationLock.RowsAreOwn` | src/database/schema.js:1132-1139 | the row an acquirer sees expires at its own sampled time plus the time to live |
| `MigrationLock.AloneForTimeToLive` | src/database/schema.js:1120-1152 | a holder is alone for its time to live, counted from the time it sampled |
| `MigrationLock.HolderAcquired` | src/database/schema.js:1138-1152 | who holds the lock has acquired it and not released it since |
| `MigrationLock.TwoHoldersMeanExpiry` | src/database/schema.js:1120-1152 | two processes hold the lock together only after the time to live of the earlier one |
| `MigrationLock.LoneTurnAcquiresExactly` | src/database/schema.js:1120-1138 | a process whose statements run undisturbed holds the lock at the end, with a lease that expires at its sample plus the time to live, if and only if at its sample the row was missing, expired or its own; otherwise the row is as it was |
| `MigrationLock.ReleaseFrees` | src/database/schema.js:1150-1152 | a release removes the owner's own lease and no other |
| `MigrationLock.NextAfterRelease` | src/database/schema.js:1120-1152 | whoever runs undisturbed after the holder's release acquires |
| `MigrationLock.NextAfterExpiry` | src/database/schema.js:1128-1138 | whoever runs undisturbed after a lease has expired acquires, so a crashed owner blocks nobody for good |
| `DuplicateDrives.BeatsOrder` | src/database/schema.js:738-749 | the preference between rows is a strict total order |
| `DuplicateDrives.LessExactly` | src/database/schema.js:747 | identifiers compare by the first character in which they differ, a proper prefix first |
| `DuplicateDrives.DoomedOnTheWay` | src/database/schema.js:727-750 | halfway through the UPDATE a row is doomed exactly if it was at the start and has not been visited |
| `DuplicateDrives.DriveTable.NormalizeDuplicateActiveDrives` | src/database/schema.js:719-753 | visiting the rows in any order gives the same table |
| `DuplicateDrives.CleanedUnique` | src/database/schema.js:726-752 | at most one active drive per user and type is left, so the unique index can be built |
| `DuplicateDrives.CleanedKeepsMaximum` | src/database/schema.js:738-749 | the one kept is untouched and preferred to every other of its group: by default mark, then last update (or creation, or zero), then greater id; the others are deleted, not default, stamped, and otherwise as they were |
| `DuplicateDrives.CleanedLeavesOthers` | src/database/schema.js:731-736 | rows that are not active, or have no user or no type, are left alone |
| `LruCache.LRUCache.constructor` | src/dispatcher/MessageHandler.js:23-29 | an empty cache with its bounds |
| `LruCache.LRUCache.Set` | src/dispatcher/MessageHandler.js:31-53 | replace, evict the oldest if full, append, and clean up every hundredth time |
| `LruCache.LRUCache.Get` | src/dispatcher/MessageHandler.js:55-70 | a hit moves to the end, an expired entry goes |
| `LruCache.LRUCache.Has` | src/dispatcher/MessageHandler.js:72-74 | tells a hit and touches like a read |
| `LruCache.LRUCache.Cleanup` | src/dispatcher/MessageHandler.js:76-89 | exactly the expired entries go, in place |
| `LruCache.RecencyOrder` | src/dispatcher/MessageHandler.js:31-70 | after any history the cache lists its keys in last-touch order, each once |
| `LruCache.SizeBound` | src/dispatcher/MessageHandler.js:39-45 | the size after any history |
| `LruCache.BoundKeptExactlyWhenPositive` | src/dispatcher/MessageHandler.js:39-45 | the size stays within the bound on all histories if and only if the bound is positive |
| `LruCache.EvictionNeedsTouches` | src/dispatcher/MessageHandler.js:39-43 | an entry is oldest only when all others were touched since |
| `LruCache.EntryKept` | src/dispatcher/MessageHandler.js:31-89 | a call that neither sets the key nor comes too late nor fills the cache keeps its entry |
| `LruCache.Retained` | src/dispatcher/MessageHandler.js:22-94 | a key set at most a time to live ago is found, with its value, whenever fewer than `maxSize` other keys were touched since its last touch |
| `LruCache.EntriesComeFromLastSet` | src/dispatcher/MessageHandler.js:31-45 | every entry is what the last call for its key set |
| `LruCache.FoundMeansRecentlySet` | src/dispatcher/MessageHandler.js:55-74 | a key is found only if it was set within the time to live |
| `WorkerPool.Workers.constructor` | src/services/BatchProcessor.js:177-193 | as many workers as concurrency and items allow |
| `WorkerPool.Workers.Take` | src/services/BatchProcessor.js:181-183 | the loop test and the claim of an index are one uninterrupted step |
| `WorkerPool.Workers.Resume` | src/services/BatchProcessor.js:180-191 | a resumed worker stores its outcome in its own slot and goes on |
| `WorkerPool.ProcessItems` | src/services/BatchProcessor.js:172-197 | under any scheduler slot i ends with the outcome of item i (or empty without workers) |
| `WorkerPool.StepKeepsConsistent` | src/services/BatchProcessor.js:180-191 | every step keeps: an index below the shared one is with one worker or has its result |
| `WorkerPool.EachItemStartsOnce` | src/services/BatchProcessor.js:177-194 | in every interleaving items start once and in order, with exactly min(concurrency, n) workers, none of which stops while items remain |
| `WorkerPool.ResultsDelivered` | src/services/BatchProcessor.js:184-189 | a slot holds what was delivered for its item, and no item is delivered twice |
| `WorkerPool.FinalResults` | src/services/BatchProcessor.js:193-196 | at the end every slot is filled if and only if there were workers or no items |
| `WorkerPool.RunsEnd` | src/services/BatchProcessor.js:180-194 | no run is longer than items plus workers, and those of that length are over |
| `WorkerPool.NeverStuck` | src/services/BatchProcessor.js:180-194 | a worker that is not done can always be resumed |
| `WorkerPool.CountsAddUp` | src/services/BatchProcessor.js:129-131 | processed and failed together are all items |
| `WorkerPool.BatchCountsExactly` | src/services/BatchProcessor.js:129-131 | `processed` is the number of slots with a success and `failed` that of slots with a failure |
| `WorkerPool.ProcessedBatchStatus` | src/services/BatchProcessor.js:86-97 | a processed batch has progress 1 and nothing remaining if it was not empty; an empty one is never complete |
| `WorkerPool.FinishedBatchStatus` | src/services/BatchProcessor.js:127-134 | at the end of every run with workers `processed` counts the items that were delivered a success and `failed` those that were delivered a failure; together they are all items, and the batch is complete if and only if it has some |
| `DriveBindings.MarkRowsExactly` | src/repositories/DriveRepository.js:67-101 | a row is marked if and only if it is an active drive of mega, pikpak or webdav, in any case, with a password but without an explicit format of this schema version; password and all other columns are kept |
| `DriveBindings.Select` | src/repositories/DriveRepository.js:407-410 | a query's answer: exactly the selected rows, default first, then newest first |
| `DriveBindings.MarkedListAnswers` | src/repositories/DriveRepository.js:103-110 | the migrated list is the answer a query of the migrated table gives |
| `DriveBindings.ClearedCachesAgree` | src/repositories/DriveRepository.js:45-55 | dropping the keys of one user and of the touched drives is enough after a write that touches only those |
| `DriveBindings.AnswersCoincide` | src/repositories/DriveRepository.js:407-410 | two answers to one query are the same list unless two drives tie |
| `DriveBindings.AnswersExactly` | src/repositories/DriveRepository.js:407-410 | what answers the query for a user: exactly his active drives, each once, the default first, then the newest |
| `DriveBindings.AllAnswersExactly` | src/repositories/DriveRepository.js:367-370 | what answers the query for all: exactly the active drives, each once, the newest first |
| `DriveBindings.DriveRepository.ClearUserDriveCache` | src/repositories/DriveRepository.js:45-55 | exactly these keys go, and none for a missing user |
| `DriveBindings.DriveRepository.UpdateActiveDrivesList` | src/repositories/DriveRepository.js:465-477 | the cached list of active drives agrees with the table |
| `DriveBindings.DriveRepository.MigrateLegacyPasswordFormat` | src/repositories/DriveRepository.js:67-101 | marks the row if needed, returns the drive as stored, and keeps the caches right |
| `DriveBindings.DriveRepository.MigrateLegacyPasswordFormats` | src/repositories/DriveRepository.js:103-110 | the same for a list, one after the other |
| `DriveBindings.DriveRepository.FindDriveInD1` | src/repositories/DriveRepository.js:399-416 | the direct query and its migration |
| `DriveBindings.DriveRepository.FindByUserId` | src/repositories/DriveRepository.js:118-159 | wherever the answer comes from, it is one a direct query gives |
| `DriveBindings.DriveRepository.FindById` | src/repositories/DriveRepository.js:315-342 | the active row, or nothing, exactly as the table has it |
| `DriveBindings.DriveRepository.FindByUserAndId` | src/repositories/DriveRepository.js:350-357 | the same, only for its owner |
| `DriveBindings.DriveRepository.FindAll` | src/repositories/DriveRepository.js:363-391 | exactly the active drives of the table, newest first |
| `DriveBindings.DriveRepository.NewestDeleted` | src/repositories/DriveRepository.js:199-202 | a deleted row of the user and type touched last |
| `DriveBindings.DriveRepository.Create` | src/repositories/DriveRepository.js:169-228 | throws exactly on a missing parameter or an active binding; else the row touched last among the deleted ones of user and type, or a new one, holds what was passed, with no folder and no default mark, and with its former creation time if reused; every other row is as it was, this is the only active drive of user and type, and it is what the cache holds |
| `DriveBindings.BindingIsFound` | src/repositories/DriveRepository.js:169-228 | a new binding is what `findById` and `findByUserId` then give, once, with name, password and configuration as passed, up to the mark of its password format |
| `DriveBindings.DriveRepository.UpdateConfigData` | src/repositories/DriveRepository.js:230-243 | changes the configuration of an active drive of the user, nothing else; laws and caches stay right |
| `DriveBindings.DriveRepository.DeleteByUserId` | src/repositories/DriveRepository.js:250-272 | deletes exactly the active drives of the user; caches stale on the way are right at the end |
| `DriveBindings.DriveRepository.Delete` | src/repositories/DriveRepository.js:280-308 | deletes exactly an active drive of the user and says whether it did |
| `DriveBindings.DriveRepository.UpdateRemoteFolder` | src/repositories/DriveRepository.js:425-459 | the row changes; the caches stay right if and only if nothing visible changed, or the owner was passed, or the owner and the drive were not cached |
| `DriveBindings.DriveRepository.SetUserUploadPath` | src/dispatcher/Dispatcher.js:2006-2021 | the only caller: the folder of the user's default drive, or else of a newest one, is set and no other row changes but for the password marks; the caches stay right |
| `DriveBindings.StaleAfterForeignFolderChange` | src/repositories/DriveRepository.js:430-445 | a lawful table and right cached lists that the folder change of another user's drive leaves wrong |
| `DriveBindings.DriveRepository.UpdateDefaults` | src/repositories/DriveRepository.js:502-505 | the statement, row by row in any order under the unique index on active defaults: its result, and when it is rejected and undone |
| `DriveBindings.SwapRejectableExactly` | src/database/schema.js:41-42 | some visiting order rejects the swap if and only if the user has another default now; some order always accepts it |
| `DriveBindings.SwapCanBeRejected` | src/database/schema.js:41-42 | a table, a new default and an order in which it is rejected |
| `DriveBindings.DriveRepository.GetDefaultDrive` | src/repositories/DriveRepository.js:479-487 | the default drive, else a newest one, of the table itself |
| `DriveBindings.DriveRepository.SetDefaultDrive` | src/repositories/DriveRepository.js:489-510 | throws if and only if the drive is not an active one of the user or the unique index rejects the swap, which takes another default; else it alone is the default |
| `DriveBindings.DriveRepository.ClearDefaultDrive` | src/repositories/DriveRepository.js:512-520 | none of the user's active drives is the default |
| `JsNumbers.AndMask` | src/processor/ExternalUrlPolicy.js:466-467 | masking any integer with ones from digit k to digit w keeps exactly those digits |
| `JsNumbers.AndNegatedPower` | src/processor/ExternalUrlPolicy.js:421-422 | masking any integer with a negated power of two clears exactly the low digits |
| `JsStrings.SplitUndoesJoin` | src/processor/ExternalUrlPolicy.js:474-475 | splitting undoes joining when no part holds the separator |
| `JsStrings.SplitAtGap` | src/processor/ExternalUrlPolicy.js:473 | a text with one "::" splits into what is before and after it |
| `JsStrings.ParseIntDigits` | src/processor/ExternalUrlPolicy.js:478 | on digits alone `parseInt` is positional notation |
| `AddressPolicy.Ipv4Value` | src/processor/ExternalUrlPolicy.js:416-418 | the fold under 32-bit shifts is the base-256 value, for every spelling of every four octets |
| `AddressPolicy.MaskIsNegatedPower` | src/processor/ExternalUrlPolicy.js:421 | the shifted 32-bit mask, as `&` reads it |
| `AddressPolicy.Ipv4CidrIsInterval` | src/processor/ExternalUrlPolicy.js:420-423 | for any two texts and 0 to 32 bits the mask test is membership in the aligned interval of size 2^(32 - bits) |
| `AddressPolicy.BlockedIpv4IsUnion` | src/processor/ExternalUrlPolicy.js:425-442 | the blocked predicate is membership in a union of intervals |
| `AddressPolicy.BlockedIpv4Exactly` | src/processor/ExternalUrlPolicy.js:425-442 | the blocked addresses, octet by octet |
| `AddressPolicy.CompressedParses` | src/processor/ExternalUrlPolicy.js:470-479 | parsing fills the gap of "::" with zero groups |
| `AddressPolicy.Ipv6RoundTrip` | src/processor/ExternalUrlPolicy.js:470-482 | for every eight groups, every hexadecimal spelling in either case, and every run of zero groups written "::" or none: parsing gives the 128-bit positional value (section 2.2 of RFC 4291) |
| `AddressPolicy.Ipv6CidrIsInterval` | src/processor/ExternalUrlPolicy.js:463-468 | on 128-bit values the mask test is membership in the aligned interval of size 2^(128 - bits) |
| `AddressPolicy.WholeGroups` | src/processor/ExternalUrlPolicy.js:463-468 | a prefix of whole groups matches exactly when those groups are equal |
| `AddressPolicy.BlockedIpv6Exactly` | src/processor/ExternalUrlPolicy.js:444-461 | the blocked addresses, group by group, however they are written |
| `AddressPolicy.BlockedMappedExactly` | src/processor/ExternalUrlPolicy.js:445-446 | a mapped dotted quad is blocked exactly when the IPv4 address is |
| `CircuitBreaker.CircuitBreaker.constructor` | src/services/CircuitBreaker.js:20-30 | closed and clean, with defaults for missing or zero limits |
| `CircuitBreaker.CircuitBreaker.Begin` | src/services/CircuitBreaker.js:38-54 | when a command starts, and the half-open state |
| `CircuitBreaker.CircuitBreaker.OnSuccess` | src/services/CircuitBreaker.js:100-110 | the effect of a success in each state |
| `CircuitBreaker.CircuitBreaker.OnFailure` | src/services/CircuitBreaker.js:112-125 | the effect of a failure in each state |
| `CircuitBreaker.CircuitBreaker.ResetCounters` | src/services/CircuitBreaker.js:127-132 | closed and clean again |
| `CircuitBreaker.CircuitBreaker.ForceOpen` | src/services/CircuitBreaker.js:94-98 | open from now on, counts kept |
| `CircuitBreaker.LatestCalm` | src/services/CircuitBreaker.js:100-132 | the moment after the latest success or close |
| `CircuitBreaker.ClosedCountsFailures` | src/services/CircuitBreaker.js:100-132 | in every run, while closed, the failure count is the number of failures since the last success or close, below the threshold unless zero |
| `CircuitBreaker.OpensExactly` | src/services/CircuitBreaker.js:112-125 | what opens it: a hand, a failed probe, or the failure that brings that number to the threshold |
| `CircuitBreaker.FailureTimeIsLatest` | src/services/CircuitBreaker.js:94-114 | while not closed, the recorded time is that of the latest failure or forced opening |
| `CircuitBreaker.NoStartWithinTimeout` | src/services/CircuitBreaker.js:38-51 | the first command after the breaker was open starts later than the timeout after every failure before it |
| `CircuitBreaker.RefusedExactly` | src/services/CircuitBreaker.js:38-51 | a call is refused if and only if the breaker is open and the latest failure or forced opening lies within the timeout |
| `CircuitBreaker.ClosingTakesSuccesses` | src/services/CircuitBreaker.js:100-106 | closing by itself takes exactly the full number of half-open successes since it was last closed |
| `CircuitBreaker.SuccessesInARowExactly` | src/services/CircuitBreaker.js:100-125 | at a closing the full number of successes falls after a moment, such as the last failed probe, if and only if the success count was zero then |
| `CircuitBreaker.SuccessesSurviveReopening` | src/services/CircuitBreaker.js:112-125 | a run, every outcome that of a started call, that closes with a failed probe between the two successes |
| `UpdateThrottle.TaskManager.CanUpdateUI` | src/processor/TaskManager.js:1075-1092 | one call: the window, the count and the answer |
| `UpdateThrottle.AllowedIsBounded` | src/processor/TaskManager.js:1075-1092 | with a clock that never runs back, the updates allowed in [a, b] of any run are at most maxUpdates * ((b - a) div (windowSize + 1) + 2) |
| `UpdateThrottle.BurstAllowed` | src/processor/TaskManager.js:1086-1091 | calls that fit into the window are all allowed |
| `UpdateThrottle.BoundIsReached` | src/processor/TaskManager.js:1081-1091 | a run that reaches the bound within one tick, for every window and limit |

## Left out

Weaker or narrower than the code:

- JsonScanner.Scanner.CurrentPath: gives the location as segments, because the `~0` and `~1` spelling of the `path` text and its printing carry no decision; `main`, reading the file and the exit code are left out with it.
- JsonDocuments.ScanDocument: speaks of texts that are one document with blanks around it; on other texts (truncated, several documents in a row) `DetectDuplicateKeys` and `StepProgress` say what happens, as the machine's run.
- TaskProtocol.StatusPath: a row is not deleted, has a status and a numeric `updated_at`, and time is a non-negative integer; numbers above 2^53 are not rounded.
- TaskClaims.IdleTasksUnclaimed: given, as in both webhook handlers, that outside a fence only the two start events pass an owner.
- TaskRepository.TaskRepository.TransitionStatus: is for one row, so the missing-identifier error is left out, as are the bare boolean answer without `returnResult`, the `reason` text, `error_msg` and the derived caches refreshed afterwards.
- TaskRepository.TaskRepository.RefreshActiveTaskLiveness: leaves out the same.
- TaskTimestamps.StampsRiseExactly: is about runs in which only transitions and refreshes write the row; the metadata writers store the raw clock and can set a stamp back.
- TaskQueueContract.AttemptSourcesDistinct: distinctness is stated of the text that is hashed; SHA-256 and the label in front of the digest are left out.
- TableRebuild.CrashSafe: is about restarts of the rebuild itself, not of `migrateDatabaseSchema`, whose callers look at the table first and may not come back to it; index statements succeed and touch no rows.
- TableRebuild.TaskMigrationSettles: on a table that has all columns, like the next.
- TableRebuild.TaskMigrationSurvivesCrashes: on a table that has all columns; the defaults for missing columns and the random id are left out.
- MigrationLock.OneHolderPerLease: the lock is a step relation only; waiting times between polls are any ticks of the clock.
- LruCache.LRUCache.Get: values are never null or falsy; the source tells a miss from a stored null no better.
- WorkerPool.ProcessItems: an outcome holds the result or the error message; the copy of the item and index beside it is left out.
- DriveBindings.DriveRepository.FindByUserId: one instance whose caches keep what they are given; expiry, which only forgets, stale copies on other instances and failing deletes are left out, and every clock reading inside one call is the same.
- DriveBindings.DriveRepository.Create: the drawn identifier is new; configurations are a password, its format, a schema version and the rest, not JSON text; rows obey the table's constraints from the start.
- AddressPolicy.Ipv6RoundTrip: hexadecimal groups only; dotted quads inside other addresses and zone identifiers pass through the same functions, but no property of them is stated.
- JsStrings.ParseIntDigits: lower-casing is that of ASCII.
- CircuitBreaker.CircuitBreaker.Begin: the command, its result and the fallback are left out; a call is its start and its outcome.

Not modelled:

- Telegram, rclone, QStash, Redis, HTTP, the file system, logging and message texts: foreign calls without a property of their own.
- SQL text and the D1 wire format: tables are maps or sequences, a statement is one atomic step, and its change count is true.
- `flushUpdates` and `pendingUpdates`, `create`, `findStalledTasks` and the overview queries of `TaskRepository`: they add no new way to write a status.
- `_acquireMessageLock` around the message cache: it would only add the remote lock.
- The batch priority queue in `createBatch` and `_processQueue`, `onBatchComplete` and the batch records: easy members beside the pool.
- `CircuitBreakerManager`, `updateQueueUI`, and the DNS, redirect and size checks of `ExternalUrlPolicy`: lookups and calls into the platform (`net.isIP` among them).
- Uniqueness of default drives after migration alone: the cleanup does not establish it.
