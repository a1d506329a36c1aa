# Verified models of Oxide Agent

This project models five systems of Oxide Agent that hold state or promise a
round trip, and proves what they keep over all inputs and all runs.

| system | modules |
|---|---|
| module registry tooling: two parsers, three scanners, printer, marked sections, consistency checks | `Text`, `QuoteScanners`, `RegistryParser`, `BuildScript`, `RegistryAgreement`, `CargoFeatures`, `ProfileGenerator`, `RegistryChecks` |
| reminders: job records, in-memory store, the scheduler's due queue | `ReminderJobs`, `ReminderStore`, `ReminderScheduler` |
| task events: collector, event log, browser list, backfill | `EventCollector`, `TaskEvents`, `EventList`, `Backfill` |
| text transforms: bracket escaping, message splitting | `HtmlEscape`, `MessageSplitter`, `MessageLayout`, `MessageFences` |
| task lifecycle and cancellation tokens under interleaving | `TaskLifecycle`, `CancellationTokens` |

`Prelude` holds `Option` and `Result`.  `dafny verify dfyconfig.toml` checks
everything.

## How the models are built

- Code that loops over mutable state is a method with a loop, or a class whose
  methods change its fields.  Each is proved against a function of its input
  or old state, and the lemmas are about that function.
- Where several locks are taken one after the other (`TaskLifecycle`, closing
  a log in `TaskEvents`, cancelling in `CancellationTokens`), each lock section
  is one atomic step of a state machine, and the lemmas range over every
  schedule.  `UninterruptedCall`, `UninterruptedRegistration`,
  `UninterruptedCloser` and `InterleavedCalls` tie the steps to the methods of the
  classes.
- Text is `seq<char>`; trimming, splitting, `lines` and `find` are written out
  in `Text`.  Where the original measures bytes, the model counts UTF-8 bytes.
- Clocks, fresh ids, grapheme segmentation and failing requests are parameters.
- 64-bit counters saturate or wrap as they do in the source.  `next_seq += 1`
  wraps, as it does in a build without overflow checks.

## What turned out not to hold

For each of these there is a lemma with an input that fails, and one that says
exactly when the code meets the property.

- `split_long_message` documents every part to be within the limit.  A part can
  be 8 bytes longer (`EightBytesAreReached`), never more (`PartsWithinEight`).
  Every part is within the limit if and only if no buffer is overfull when it is
  flushed (`PartsWithinExactly`), for instance when no line starts with a fence
  (`FencelessPartsWithin`).
- It also loses text: a full line in front of an opening fence gives the same
  parts for every language tag (`OpeningFenceLosesTag`).  Backticks aside, the
  visible text is kept if and only if no opening fence with a tag forces a flush
  (`PartsKeepTextExactly`).
- Nor does every part close the code blocks it opens: a closing fence that no
  longer fits leaves its block open (`ClosingFenceIsLeftOut`).  As long as no line
  over the limit holds a fence, all parts are balanced if and only if every fence
  line fits behind the buffer it meets (`PartsBalanceExactly`).
- A rebuild of the due queue lists at most `rebuild_limit` jobs, latest run time
  first.  Above the limit it therefore drops jobs that are due no later than
  any job it keeps (`RebuildDropsTheSoonest`); it is complete if and only if the
  user's scheduled jobs fit (`RebuildIsCompleteWithinLimit`).
- A rebuild does not always bring the queue back in sync.  It does if and only
  if no later run time was cached for the same version (`BootstrapRestoresSync`);
  deferring a busy reminder leaves just that (`DeferredReminderStaysAhead`).
  Lost, repeated or stale notifications of stored records never do
  (`BootstrapHealsAnyDelivery`).
- A rebuild reads storage before it takes the queue's lock.  A job deleted in
  between comes back into the queue (`DeletedJobResurrected`); the queue stays in
  sync if and only if the user's scheduled jobs did not change in between
  (`InterruptedRebuildExactly`).
- A body without the end marker does not always survive in a marked section.
  For every section name and body, extraction returns the body if and only if
  the marker is found neither in the body nor half in the body and half in the
  marker behind it (`ExtractAfterReplace`).  Lacking the marker is enough exactly
  for the names whose marker does not overlap itself
  (`MarkerFreeBodiesSurviveExactly`); names that end in `#`, and others such as
  `# `, have one that does (`OverlappingNames`, `OverlappingMarkerLosesBody`).
- The build script keeps a trailing comment as part of an id or feature, the
  registry parser drops it: on every line both accept they read the same if and
  only if the line has no `#` (`FieldReadAlikeExactly`,
  `CommentedIdIsReadDifferently`).  A comment behind a header hides the header
  from the build script (`CommentedHeaderIsMissed`).  On whole texts the two
  agree if and only if no `#` stands on a header other than the first, or on the
  last id or feature line of a section (`ParsersAgreeExactly`).
- Versions stop counting at the 64-bit maximum, and from then on two different
  records can carry the same version (`SaturatedVersionRepeats`).  A version
  determines the record if and only if it is below the maximum or the job is
  completed or cancelled (`VersionDeterminesExactly`).
- Decoding undoes `escape_angle_brackets` if and only if the input held neither
  entity (`DecodeUndoesEscape`).
- Event numbers are gapless if and only if they fit in 64 bits
  (`NumberingIsGapless`).
- A cancel that interleaves with a registration can leave a cancelled task in the
  running map (`CancelDuringRegistration`) or a running task without a handle
  (`CancelAroundRegistration`).  For every schedule, tasks and handles fit
  together if and only if the cancel comes after the registration at both maps or
  at neither (`RegistrationConsistentExactly`).
- The session status is not protected the way the task status is: a failure that
  lost to a cancel may still mark the session (`CancelledTaskFailedSession`).
  For every schedule it does if and only if the failure reached the task before
  the cancel and the session after it (`SessionEndsInErrorExactly`).
- With two different events of one id the browser list depends on arrival order
  (`FirstOfConflictingStays`).  All orders give one list if and only if equal ids
  mean equal events among those not held yet (`ArrivalOrdersAgreeExactly`).
- `TaskEventLogMessage::Closed` is documented to mean that no more events follow.
  A push into a closed log follows it (`PushAfterClosed`).  It is the last
  message if and only if nothing is pushed or notified after the first close
  (`ClosedIsLastExactly`).
- A log can be seen closed without a closing time (`ClosedBeforeStamped`), exactly
  while some closer has set the flag and not yet stamped the log
  (`ClosedWithoutStampExactly`).

## Model

| member | source | states |
|---|---|---|
| QuoteScanners.BracketsBalanced | xtask/src/main.rs:288-308 | a value is complete exactly when unquoted `[` and `]` cancel out, escapes inside strings respected |
| QuoteScanners.FindMatchingParen | xtask/src/main.rs:359-386 | from any start, the first unquoted `)` that uses up the nesting, none only if there is no such position |
| QuoteScanners.MatchingParenClosesFirst | xtask/src/main.rs:359-386 | started on `(`, that position is the first one where the unquoted depth returns to zero |
| QuoteScanners.QuotedStrings | xtask/src/main.rs:388-411 | collects the literals closed while reading, in order |
| QuoteScanners.QuotedStringsOfAssembled | xtask/src/main.rs:388-411 | from quote-free gaps and well-escaped literals exactly the literals come back, escaped quotes included |
| QuoteScanners.QuotationOf | xtask/src/main.rs:388-411 | every text is such a sequence of gaps and literals, so the previous row covers all inputs |
| QuoteScanners.RunAppend | xtask/src/main.rs:288-308 | the in-string state of a scan only depends on the state in front and the text read |
| RegistryParser.ParseRegistry | xtask/src/main.rs:146-206 | the line loop gives the modules or the first error, incomplete modules refused |
| RegistryParser.GatherValue | xtask/src/main.rs:170-190 | a value runs on over the next lines until its brackets balance or the text ends |
| RegistryParser.FirstIncomplete | xtask/src/main.rs:196-205 | finds the first module without id, feature or kind exactly when there is one |
| RegistryParser.AcceptedExactly | xtask/src/main.rs:146-206 | a text whose lines parse is accepted if and only if every module has a non-empty id, feature and kind; otherwise a module lacking one is named |
| RegistryParser.StripComment | xtask/src/main.rs:208-213 | the line up to its first hash |
| RegistryParser.ParsedKeysHaveNoHash | xtask/src/main.rs:146-206 | no accepted registry holds a `#` in any id, feature or kind |
| RegistryParser.ParseArrayText | xtask/src/main.rs:224-238 | a printed array reads back as its entries |
| BuildScript.ParseModuleEntries | crates/oxide-agent-core/build.rs:49-72 | emits a pair for every header section in which both fields were seen |
| RegistryAgreement.ParsersAgreeExactly | xtask/src/main.rs:146-206 | on every spelled text the registry parser accepts, the build script finds the same ids and features in the same order if and only if no `#` stands on a later header or on the last id or feature line of a section |
| RegistryAgreement.FieldReadAlikeExactly | crates/oxide-agent-core/build.rs:60-82 | an id or feature line reads the same in both parsers if and only if it has no `#` |
| RegistryAgreement.StatementOfTrimmed | xtask/src/main.rs:208-213 | cutting the comment and trimming commute |
| RegistryAgreement.RegistryRoundTrip | xtask/src/main.rs:146-234 | a canonically printed registry parses back to the same modules with all fields |
| RegistryAgreement.BuildRoundTrip | crates/oxide-agent-core/build.rs:49-81 | from the same text the build script reads the same pairs in the same order |
| RegistryAgreement.CommentedIdIsReadDifferently | crates/oxide-agent-core/build.rs:74-82 | with a trailing comment, whatever it says, the two parsers read different ids |
| RegistryAgreement.CommentedHeaderIsMissed | crates/oxide-agent-core/build.rs:54-59 | a header with a comment is a header for the registry parser only |
| RegistryAgreement.OtherSpellingIsMissed | crates/oxide-agent-core/build.rs:60-63 | an id written without blanks around `=` is read by the registry parser only |
| CargoFeatures.ParseCargoFeatures | xtask/src/main.rs:245-286 | the loop over the `[features]` table, later entries replacing earlier ones, an empty table an error |
| CargoFeatures.ComputeProfileCompositions | xtask/src/main.rs:430-439 | one profile with the features of all modules, duplicates dropped |
| CargoFeatures.FirstOccurrencesInOrder | xtask/src/main.rs:430-439 | no feature is repeated and the order is that of first appearance |
| CargoFeatures.ProfileListsEachFeatureOnce | xtask/src/main.rs:430-439 | the profile holds exactly the features of the modules, each once, one before another when it appears first |
| CargoFeatures.RenderProfileSection | xtask/src/main.rs:441-453 | prints one block for each profile, joined by line feeds |
| CargoFeatures.RenderBlock | xtask/src/main.rs:441-453 | one line for each feature, a comma after all but the last |
| CargoFeatures.BlockValue | xtask/src/main.rs:245-308 | the value gathered for a printed block ends at its closing bracket and holds exactly its features |
| CargoFeatures.SectionRoundTrip | xtask/src/main.rs:245-308 | a printed profile section behind `[features]` parses back to each profile's features, the last entry of a name winning |
| CargoFeatures.ProfileRoundTrip | xtask/src/main.rs:430-453 | for the computed profile that is exactly one entry `profile-full` with every feature once, in order |
| CargoFeatures.ProfileInTable | xtask/src/main.rs:245-286 | the printed profile inside a longer table adds its one entry and changes no other |
| CargoFeatures.TableEndsAtHeader | xtask/src/main.rs:252-262 | the next table header ends the declarations |
| CargoFeatures.NoTableIsAnError | xtask/src/main.rs:281-285 | without a `[features]` table there is an error |
| ProfileGenerator.ExtractAfterReplace | xtask/src/main.rs:459-499 | for every section name and body, extraction after a replacement returns the new body if and only if body and marker but its last character hold no end marker |
| ProfileGenerator.MarkerFreeBodiesSurviveExactly | xtask/src/main.rs:459-499 | every marker-free body comes back if and only if the end marker of that name does not overlap itself |
| ProfileGenerator.ReplaceKeepsOutside | xtask/src/main.rs:476-499 | a replacement succeeds only where extraction does and changes nothing outside the markers |
| ProfileGenerator.LastReplaceWins | xtask/src/main.rs:476-499 | of two replacements only the last is visible, under exactly that condition on the first body |
| ProfileGenerator.OverlappingMarkerLosesBody | xtask/src/main.rs:459-499 | where the end marker overlaps itself a marker-free body is lost |
| ProfileGenerator.OverlappingNames | xtask/src/main.rs:459-461 | it does for names ending in `#` and for `# ` |
| ProfileGenerator.GenerateSettles | xtask/src/main.rs:82-100 | after generate the profile check reports no drift and a second generate changes nothing, for every registry text and file |
| ProfileGenerator.GeneratedSection | xtask/src/main.rs:82-100 | the generated section, read as a `[features]` table, declares `profile-full` alone, with every feature of the registry once in order of first appearance |
| ProfileGenerator.GeneratedTable | xtask/src/main.rs:82-100 | where the section stands in the `[features]` table of the whole file, generating declares that profile unless a later line does, and leaves every other entry alone |
| ProfileGenerator.UpToDateExactly | xtask/src/main.rs:573-590 | check accepts a file if and only if generate would leave it as it is, that is, exactly when the section holds the one text that lists those features |
| RegistryChecks.CheckCompiledModules | xtask/src/main.rs:529-571 | reports exactly the missing, undeclared and differing modules, and nothing exactly when both sides are in step |
| RegistryChecks.CompiledMapIsLast | xtask/src/main.rs:534-535 | of several declarations of one key the last counts |
| RegistryChecks.CheckDuplicateRegistryIds | xtask/src/main.rs:505-512 | each id is reported once for every repetition, nothing else is |
| ReminderJobs.RunKeepsInvariant | crates/oxide-agent-transport-web/src/in_memory_storage.rs:545-846 | over every run leases exist only on scheduled jobs, failed jobs carry an error, finished ones a run time, keys match records |
| ReminderJobs.VersionCountsMutations | crates/oxide-agent-transport-web/src/in_memory_storage.rs:653-834 | the version grows by one with each successful mutation and the record changes only with it |
| ReminderJobs.CreatedJobVersion | crates/oxide-agent-transport-web/src/in_memory_storage.rs:545-579 | since creation it is one plus the number of mutations |
| ReminderJobs.VersionDeterminesRecord | crates/oxide-agent-transport-web/src/in_memory_storage.rs:653-834 | two reads with equal key and version below the maximum see equal records |
| ReminderJobs.SaturatedVersionRepeats | crates/oxide-agent-transport-web/src/in_memory_storage.rs:724-834 | at the maximum, from every status that is not final, a mutation changes the record but not the version |
| ReminderJobs.VersionDeterminesExactly | crates/oxide-agent-transport-web/src/in_memory_storage.rs:653-834 | a version determines the record if and only if it is below the maximum or the job is in a final state |
| ReminderJobs.FinalIsFinal | crates/oxide-agent-transport-web/src/in_memory_storage.rs:653-834 | completed and cancelled jobs never change until they are deleted |
| ReminderJobs.DeletedStaysDeleted | crates/oxide-agent-transport-web/src/in_memory_storage.rs:836-846 | a deleted id never comes back |
| ReminderJobs.LeasesAreExclusive | crates/oxide-agent-transport-web/src/in_memory_storage.rs:653-671 | a second claim succeeds only when the first lease has expired or the job was changed in between |
| ReminderJobs.ClaimsAreOnTime | crates/oxide-agent-core/src/storage/reminder.rs:180-190 | after any run a claim succeeds if and only if the job is scheduled, the time last asked for has come and no lease reaches beyond this moment |
| ReminderStore.InMemoryStorage.CreateReminderJob | crates/oxide-agent-transport-web/src/in_memory_storage.rs:545-579 | adds a scheduled record of version 1 under its key and returns it |
| ReminderStore.InMemoryStorage.ListReminderJobs | crates/oxide-agent-transport-web/src/in_memory_storage.rs:594-628 | the latest matching jobs, each once, latest first, nothing left out that belongs in front of the cut |
| ReminderStore.InMemoryStorage.ListDueReminderJobs | crates/oxide-agent-transport-web/src/in_memory_storage.rs:630-651 | the user's scheduled, unleased jobs whose run time has come, earliest first, cut at the limit, none missing while there is room |
| ReminderStore.InMemoryStorage.ClaimReminderJob | crates/oxide-agent-transport-web/src/in_memory_storage.rs:653-671 | leases the job if and only if it is scheduled, its run time has come and no lease reaches beyond this moment; otherwise nothing changes |
| ReminderStore.InMemoryStorage.RescheduleReminderJob | crates/oxide-agent-transport-web/src/in_memory_storage.rs:673-699 | moves a scheduled job on and clears its lease |
| ReminderStore.InMemoryStorage.CompleteReminderJob | crates/oxide-agent-transport-web/src/in_memory_storage.rs:701-722 | completes a scheduled job |
| ReminderStore.InMemoryStorage.FailReminderJob | crates/oxide-agent-transport-web/src/in_memory_storage.rs:724-745 | fails a scheduled job with its error |
| ReminderStore.InMemoryStorage.CancelReminderJob | crates/oxide-agent-transport-web/src/in_memory_storage.rs:747-766 | cancels a scheduled job, and only such a one |
| ReminderStore.InMemoryStorage.PauseReminderJob | crates/oxide-agent-transport-web/src/in_memory_storage.rs:768-787 | pauses a scheduled job |
| ReminderStore.InMemoryStorage.ResumeReminderJob | crates/oxide-agent-transport-web/src/in_memory_storage.rs:789-810 | schedules a paused job again |
| ReminderStore.InMemoryStorage.RetryReminderJob | crates/oxide-agent-transport-web/src/in_memory_storage.rs:812-834 | schedules a failed job again |
| ReminderStore.InMemoryStorage.DeleteReminderJob | crates/oxide-agent-transport-web/src/in_memory_storage.rs:836-846 | removes the record and nothing else |
| ReminderStore.Collect | crates/oxide-agent-transport-web/src/in_memory_storage.rs:600-615 | the records that pass the filter, each exactly once, in whatever order the map yields them |
| ReminderStore.ListingOfSorted | crates/oxide-agent-transport-web/src/in_memory_storage.rs:616-627 | sorting and truncating an enumeration gives the first records of the order and loses none in front of the cut |
| ReminderStore.DueListingIsExact | crates/oxide-agent-core/src/storage/reminder.rs:180-190 | a due listing holds only scheduled jobs whose time has come and that nobody leases, the earliest first, and misses none while there is room |
| ReminderStore.RunIsWellKeyed | crates/oxide-agent-transport-web/src/in_memory_storage.rs:545-846 | in every reachable store each record sits under its own key |
| ReminderScheduler.ReminderSchedulerHandle.UpsertRecord | crates/oxide-agent-transport-telegram/src/reminder_scheduler.rs:108-122 | a scheduled record of an allowed user is tracked, any other record of an allowed user is dropped from the queue |
| ReminderScheduler.ReminderSchedulerHandle.DeleteRecord | crates/oxide-agent-transport-telegram/src/reminder_scheduler.rs:125-130 | the key leaves the queue |
| ReminderScheduler.ReminderSchedulerHandle.Notify | crates/oxide-agent-transport-telegram/src/reminder_scheduler.rs:173-183 | dispatches a notification to the two operations |
| ReminderScheduler.ReminderSchedulerHandle.NextDueAt | crates/oxide-agent-transport-telegram/src/reminder_scheduler.rs:133-140 | the least run time in the queue, none only when it is empty |
| ReminderScheduler.ReminderSchedulerHandle.TakeDueBatch | crates/oxide-agent-transport-telegram/src/reminder_scheduler.rs:143-158 | the earliest due records, each once, sorted, cut at the limit |
| ReminderScheduler.ReminderSchedulerHandle.TrackedCount | crates/oxide-agent-transport-telegram/src/reminder_scheduler.rs:161-164 | the size of the queue |
| ReminderScheduler.ReminderSchedulerHandle.ListScheduled | crates/oxide-agent-transport-telegram/src/reminder_scheduler.rs:76-84 | the user's latest scheduled jobs up to the limit, or the storage error |
| ReminderScheduler.ReminderSchedulerHandle.InstallListing | crates/oxide-agent-transport-telegram/src/reminder_scheduler.rs:86-104 | under the lock, replaces the user's entries by the listed ones merged with what is cached now |
| ReminderScheduler.ReminderSchedulerHandle.ReconcileUserFromStorage | crates/oxide-agent-transport-telegram/src/reminder_scheduler.rs:68-104 | rebuilds one allowed user's entries from storage, merging run times of equal versions, and leaves all other users alone; a failing listing changes nothing |
| ReminderScheduler.ReminderSchedulerHandle.BootstrapFromStorage | crates/oxide-agent-transport-telegram/src/reminder_scheduler.rs:54-64 | rebuilds every allowed user and returns the number of tracked records; at the first failing listing it stops, the users not reached keep what they had |
| ReminderScheduler.RunStaysInSync | crates/oxide-agent-transport-telegram/src/reminder_scheduler.rs:108-183 | over every run with a notification behind each successful mutation, the queue is exactly the scheduled jobs of allowed users in storage |
| ReminderScheduler.AnnouncedStaysInSync | crates/oxide-agent-transport-telegram/src/reminder_scheduler.rs:173-183 | one mutation and its notification keep the queue in sync |
| ReminderScheduler.InSyncNextDue | crates/oxide-agent-transport-telegram/src/reminder_scheduler.rs:133-140 | in sync, the next due time is the minimum over storage |
| ReminderScheduler.InSyncBatch | crates/oxide-agent-transport-telegram/src/reminder_scheduler.rs:143-158 | in sync, the batches the queue can give are exactly those of a full storage scan |
| ReminderScheduler.InSyncBatchIsOnTime | crates/oxide-agent-transport-telegram/src/reminder_scheduler.rs:143-158 | in sync, no batch holds a reminder early, and none that is due in storage is missed while there is room |
| ReminderScheduler.RebuildIsCompleteWithinLimit | crates/oxide-agent-transport-telegram/src/reminder_scheduler.rs:68-104 | from any cache, a rebuild holds exactly the user's scheduled keys if and only if they fit in the limit |
| ReminderScheduler.RebuildDropsTheSoonest | crates/oxide-agent-transport-telegram/src/reminder_scheduler.rs:68-104 | beyond the limit a job is lost that is due no later than every job kept |
| ReminderScheduler.RebuildInSync | crates/oxide-agent-transport-telegram/src/reminder_scheduler.rs:68-104 | a rebuild of a queue in sync keeps it in sync if and only if the jobs fit |
| ReminderScheduler.BootstrapRestoresKeys | crates/oxide-agent-transport-telegram/src/reminder_scheduler.rs:54-104 | from any cache a bootstrap restores exactly storage's scheduled keys, each record merged with the cached one |
| ReminderScheduler.BootstrapRestoresSync | crates/oxide-agent-transport-telegram/src/reminder_scheduler.rs:54-104 | it restores the records themselves if and only if no later run time was cached for an unchanged version |
| ReminderScheduler.DeferredReminderStaysAhead | crates/oxide-agent-transport-telegram/src/bot/agent_handlers/reminders.rs:348-368 | after a busy reminder was deferred a bootstrap keeps the later time of the queue |
| ReminderScheduler.BootstrapHealsAnyDelivery | crates/oxide-agent-transport-telegram/src/reminder_scheduler.rs:54-183 | whatever notifications of stored records were lost, repeated, delayed or reordered, one bootstrap within the limit restores exactly the scheduled jobs, below the maximum version |
| ReminderScheduler.InterruptedRebuildExactly | crates/oxide-agent-transport-telegram/src/reminder_scheduler.rs:76-104 | with any announced changes between listing and lock the queue is in sync afterwards if and only if the user's scheduled jobs did not change |
| ReminderScheduler.DeletedJobResurrected | crates/oxide-agent-transport-telegram/src/reminder_scheduler.rs:76-130 | a job deleted between listing and lock is in the queue again |
| EventCollector.CollectEvents | crates/oxide-agent-transport-web/src/web_transport.rs:411-588 | tool calls as paired below, persisted rows only with a browser scope, and the live channel sees the same rows |
| EventCollector.TrackToolEvent | crates/oxide-agent-transport-web/src/web_transport.rs:509-530 | one turn keeps the timings and the map of open calls right |
| EventCollector.PairingKeyIsExact | crates/oxide-agent-transport-web/src/web_transport.rs:590-596 | two tool events share a key exactly when they share an id, or both lack one and share a name |
| EventCollector.ActiveCallsAreOpen | crates/oxide-agent-transport-web/src/web_transport.rs:509-530 | active indexes are in range, distinct, unfinished and under their own key |
| EventCollector.TimingWithOneMore | crates/oxide-agent-transport-web/src/web_transport.rs:509-530 | a result closes only the latest call of its key, and only if it is still open |
| EventCollector.MatchedCallIsFinished | crates/oxide-agent-transport-web/src/web_transport.rs:509-530 | a call whose key occurs in one call and one later result is finished by that result, whatever is interleaved |
| EventCollector.ReportedCall | crates/oxide-agent-transport-web/src/web_transport.rs:509-530 | every report is a plain or once wrapped call of the stream; the next event of that call finishes it if it is a result, and nothing else does |
| EventCollector.EveryCallIsReported | crates/oxide-agent-transport-web/src/web_transport.rs:509-530 | every such call is reported with its id, name and time, in order |
| EventCollector.NumberingIsGapless | crates/oxide-agent-transport-web/src/web_transport.rs:431-553 | numbers are the last one plus one plus the position if and only if they fit in 64 bits |
| EventCollector.RowsWithOneMore | crates/oxide-agent-transport-web/src/web_transport.rs:532-553 | a retry notice adds no row, every other event adds one with the next number |
| EventCollector.ResumeContinues | crates/oxide-agent-transport-web/src/web_transport.rs:390-409 | stopping and resuming from the last number gives the rows of one uninterrupted run |
| EventCollector.NothingIsLost | crates/oxide-agent-transport-web/src/web_transport.rs:433-449 | what entered the channel is what was consumed followed by what is buffered, in order |
| EventCollector.QuietChannelDrains | crates/oxide-agent-transport-web/src/web_transport.rs:433-449 | after shutdown, or when all senders are gone, the loop consumes exactly the buffered events and ends |
| EventCollector.ShutdownDrains | crates/oxide-agent-transport-web/src/web_transport.rs:433-449 | after a signalled shutdown the next turn stops the intake, and the loop consumes exactly what is buffered and ends |
| TaskEvents.TaskEventLog.PushPersisted | crates/oxide-agent-transport-web/src/web_transport.rs:153-168 | replaces the row of that number or appends, and broadcasts the event either way |
| TaskEvents.TaskEventLog.LatestSeq | crates/oxide-agent-transport-web/src/web_transport.rs:178-181 | the greatest recorded number, zero for an empty log |
| TaskEvents.TaskEventLog.NotifyStatus | crates/oxide-agent-transport-web/src/web_transport.rs:192-204 | stores the status and broadcasts it, open or closed |
| TaskEvents.TaskEventLog.NotifyProgress | crates/oxide-agent-transport-web/src/web_transport.rs:208-214 | stores the snapshot and broadcasts it, open or closed |
| TaskEvents.TaskEventLog.Close | crates/oxide-agent-transport-web/src/web_transport.rs:232-243 | only the first close stamps the log and sends the sentinel |
| TaskEvents.LogIsLastWriteWins | crates/oxide-agent-transport-web/src/web_transport.rs:153-168 | after any pushes the log is a last-write-wins map from number to event, distinct numbers in order of first appearance |
| TaskEvents.ClosedOnce | crates/oxide-agent-transport-web/src/web_transport.rs:232-243 | under any interleaving of closers at most one sentinel is sent and the closing time never changes |
| TaskEvents.AllClosersDone | crates/oxide-agent-transport-web/src/web_transport.rs:232-243 | when all closers are through, exactly one sentinel was sent and the log is stamped |
| TaskEvents.UninterruptedCloser | crates/oxide-agent-transport-web/src/web_transport.rs:232-243 | a closer running alone does what the method of the log promises |
| TaskEvents.ClosedBeforeStamped | crates/oxide-agent-transport-web/src/web_transport.rs:232-255 | a reader can see the log closed without a closing time |
| TaskEvents.ClosedWithoutStampExactly | crates/oxide-agent-transport-web/src/web_transport.rs:232-255 | over every schedule, exactly while a closer has won and not stamped yet |
| TaskEvents.RunRecords | crates/oxide-agent-transport-web/src/web_transport.rs:153-255 | after any run the rows are those of the pushes and the closing time is that of the first close |
| TaskEvents.ClosedIsLastExactly | crates/oxide-agent-transport-web/src/web_transport.rs:109-255 | the sentinel is sent at most once, and is the last message if and only if nothing is pushed or notified after the first close |
| TaskEvents.PushAfterClosed | crates/oxide-agent-transport-web/src/web_transport.rs:153-168 | a push into a closed log follows the sentinel |
| EventList.EventSignal.AppendUniqueEvent | crates/oxide-agent-web-ui/src/sse.rs:593-608 | appends and sorts only when the event is out of order, skips a known id |
| EventList.EventSignal.MergeTaskEvents | crates/oxide-agent-web-ui/src/tasks/workspace.rs:191-211 | one sort at the end equals appending the events one by one |
| EventList.LessIsAnOrder | crates/oxide-agent-web-ui/src/sse.rs:610-615 | the comparison is a strict order that separates different ids |
| EventList.TextLessExactly | crates/oxide-agent-web-ui/src/sse.rs:610-615 | texts compare at the first difference, a prefix comes first |
| EventList.SortIsCanonical | crates/oxide-agent-web-ui/src/sse.rs:593-608 | sorting distinct events gives an ascending list of the same events |
| EventList.AppendKeepsCanonical | crates/oxide-agent-web-ui/src/sse.rs:593-608 | appending keeps the list sorted and duplicate-free and adds the event unless its id is there |
| EventList.SkippedSortIsHarmless | crates/oxide-agent-web-ui/src/sse.rs:593-608 | the path that skips the sort equals always sorting |
| EventList.AppendAllElements | crates/oxide-agent-web-ui/src/sse.rs:593-608 | where equal ids mean equal events nothing is lost and nothing is added |
| EventList.CanonicalIsUnique | crates/oxide-agent-web-ui/src/sse.rs:610-615 | an ascending list is determined by its set of events |
| EventList.OrderOfArrivalIsIrrelevant | crates/oxide-agent-web-ui/src/sse.rs:593-615 | any order, interleaving or repetition of the same events gives the same list, as long as those not held yet do not contradict each other |
| EventList.ArrivalOrdersAgreeExactly | crates/oxide-agent-web-ui/src/sse.rs:593-615 | all arrival orders give one list if and only if equal ids mean equal events among those not held yet |
| EventList.AppendAllFresh | crates/oxide-agent-web-ui/src/sse.rs:593-608 | under that condition the list gains exactly the events whose ids it did not hold |
| EventList.ShownInOrder | crates/oxide-agent-web-ui/src/sse.rs:593-615 | after any arrivals the list ascends by creation time, then task, then number, no id twice |
| EventList.EveryIdIsShown | crates/oxide-agent-web-ui/src/sse.rs:593-608 | the id of every arrived event is in the list, and nothing that did not arrive |
| EventList.FirstOfConflictingStays | crates/oxide-agent-web-ui/src/sse.rs:593-608 | of two different events with one id the first to arrive stays, whatever follows |
| Backfill.BackfillUntil | crates/oxide-agent-web-ui/src/sse.rs:371-434 | ends; stops early at the first page end with a Finished event seen and the target reached, otherwise at the end of the log; the number of polls is exact |
| Backfill.TakePage | crates/oxide-agent-web-ui/src/sse.rs:394-404 | takes every event of a page, advances the cursor, remembers a Finished event of any task |
| Backfill.PageIsSlice | crates/oxide-agent-transport-web/src/persistence/in_memory.rs:430-459 | a page is the next slice of the log; it announces more exactly when rows follow it, and is then full |
| Backfill.AfterIsSuffix | crates/oxide-agent-transport-web/src/persistence/in_memory.rs:445-448 | the rows behind a cursor are a suffix of an ascending log |
| Backfill.BackfilledList | crates/oxide-agent-web-ui/src/sse.rs:371-434 | the cursor never decreases and the list ends with exactly the old events and the task's events between start and final cursor |
| Backfill.ListedOnce | crates/oxide-agent-web-ui/src/sse.rs:371-434 | each of them once |
| HtmlEscape.EscapeAngleBrackets | crates/oxide-agent-core/src/utils.rs:73-138 | the scanner with its lookahead, against the function the lemmas speak of |
| HtmlEscape.EscapedBrackets | crates/oxide-agent-core/src/utils.rs:73-138 | in every output each raw `<` stands before one of `b i u s code pre a`, optionally behind `/`, that no letter or digit continues; each raw `>` follows one that is open |
| HtmlEscape.BracketsStayExactly | crates/oxide-agent-core/src/utils.rs:73-138 | for every bracket of the input: a `<` stays if and only if such a name stands behind it, a `>` if and only if such a tag is open in front of it |
| HtmlEscape.OpensTagExactly | crates/oxide-agent-core/src/utils.rs:98-121 | the lookahead accepts exactly these names |
| HtmlEscape.EscapeFixesExactlySafe | crates/oxide-agent-core/src/utils.rs:73-138 | the texts left alone are exactly those where every bracket belongs to a whitelisted tag |
| HtmlEscape.EscapeIdempotent | crates/oxide-agent-core/src/utils.rs:73-138 | escaping twice is escaping once |
| HtmlEscape.DecodeEscaped | crates/oxide-agent-core/src/utils.rs:73-138 | decoding the two entities sees the same text behind the escaper as in front of it |
| HtmlEscape.DecodeUndoesEscape | crates/oxide-agent-core/src/utils.rs:73-138 | decoding returns the input if and only if it held neither entity |
| HtmlEscape.SanitizeRoundTrip | crates/oxide-agent-core/src/utils.rs:40-45 | sanitized error text reads back as the original and holds no raw bracket or quote |
| MessageSplitter.SplitLongMessage | crates/oxide-agent-core/src/utils.rs:271-362 | the loop over lines and graphemes, against the function the lemmas speak of |
| MessageSplitter.PackGraphemes | crates/oxide-agent-core/src/utils.rs:305-318 | greedy packing of a long line's graphemes |
| MessageSplitter.PartsWithinEight | crates/oxide-agent-core/src/utils.rs:271-362 | when graphemes fit, no part exceeds the limit by more than 8 bytes |
| MessageSplitter.EightBytesAreReached | crates/oxide-agent-core/src/utils.rs:271-362 | the 8 bytes are reached for every limit of at least 3 |
| MessageSplitter.PartsWithinExactly | crates/oxide-agent-core/src/utils.rs:271-362 | when graphemes fit, every part is within the limit if and only if no buffer is overfull when flushed |
| MessageSplitter.FencelessPartsWithin | crates/oxide-agent-core/src/utils.rs:271-362 | without fence lines every part is within the limit |
| MessageSplitter.FencelessPartsKeepText | crates/oxide-agent-core/src/utils.rs:271-362 | without fence lines the parts in order hold the message's visible characters exactly once |
| MessageSplitter.PartsKeepTextExactly | crates/oxide-agent-core/src/utils.rs:271-362 | backticks aside, the visible text is kept in order if and only if no opening fence with a tag forces a flush |
| MessageSplitter.LineKeepsTextExactly | crates/oxide-agent-core/src/utils.rs:282-355 | one line adds its visible text in full if and only if it is not such a fence |
| MessageSplitter.OpeningFenceLosesTag | crates/oxide-agent-core/src/utils.rs:335-345 | for every limit, a message whose parts are the same for every tag |
| MessageLayout.PiecesAreFull | crates/oxide-agent-core/src/utils.rs:305-318 | the pieces of a long line follow each other without gaps, each as many graphemes as fit, and the next one would pass the limit |
| MessageLayout.FencelessPartsAreGreedy | crates/oxide-agent-core/src/utils.rs:271-362 | without fence lines the parts cover lines and graphemes in order, a part ends in front of one only if with it the part would pass the limit or a line over the limit begins there, and it never runs past such a place |
| MessageLayout.ShortMessagesStayWhole | crates/oxide-agent-core/src/utils.rs:273-279 | a message within the limit is one part, unchanged; an empty one is none |
| MessageFences.PartsBalanceExactly | crates/oxide-agent-core/src/utils.rs:282-362 | as long as no line over the limit holds a fence, every part closes the code blocks it opens if and only if every fence line fits behind the buffer it meets |
| MessageFences.ClosingFenceIsLeftOut | crates/oxide-agent-core/src/utils.rs:320-355 | for every limit of at least 6, a message whose first part leaves its code block open |
| TaskLifecycle.WebSessionManager.RegisterTaskWithId | crates/oxide-agent-transport-web/src/session.rs:727-761 | a running task and its handle, or nothing for an unknown session; running tasks stay exactly the tasks with that status |
| TaskLifecycle.WebSessionManager.RegisterExistingTask | crates/oxide-agent-transport-web/src/session.rs:767-810 | the same for a resumed run, keeping the creation time |
| TaskLifecycle.WebSessionManager.CompleteTask | crates/oxide-agent-transport-web/src/session.rs:813-833 | the task is Completed and ends now, the session idles, unless the task was cancelled; the handle goes, other tasks and sessions stay |
| TaskLifecycle.WebSessionManager.FailTask | crates/oxide-agent-transport-web/src/session.rs:836-856 | the same with Failed and a session in Error |
| TaskLifecycle.WebSessionManager.CancelTask | crates/oxide-agent-transport-web/src/session.rs:859-879 | cancels whatever the status was and answers whether the task was running |
| TaskLifecycle.WebSessionManager.RunningTaskForSession | crates/oxide-agent-transport-web/src/session.rs:887-901 | a running task of the session, none exactly when there is none |
| TaskLifecycle.UninterruptedCall | crates/oxide-agent-transport-web/src/session.rs:813-879 | a complete, fail or cancel call whose lock sections follow each other directly does what the methods promise |
| TaskLifecycle.UninterruptedRegistration | crates/oxide-agent-transport-web/src/session.rs:727-810 | the same for registering a new task and for a resumed run |
| TaskLifecycle.InterleaveKeepsInvariant | crates/oxide-agent-transport-web/src/session.rs:813-879 | the invariant of a registered task over every interleaving of lock sections |
| TaskLifecycle.CancelHasTheLastWord | crates/oxide-agent-transport-web/src/session.rs:813-879 | in every interleaving a cancel past its first section leaves the task cancelled, a returned call leaves it out of the running map, and no two calls found it running |
| TaskLifecycle.ExactlyOneFindsItRunning | crates/oxide-agent-transport-web/src/session.rs:813-879 | once a call has returned, exactly one call took the handle, so at most one cancel answers true |
| TaskLifecycle.OneCallDecides | crates/oxide-agent-transport-web/src/session.rs:813-879 | over every interleaving of complete, fail and cancel calls: the last cancel to start, or without one the last call, decides the status, and its start is the end time of the task |
| TaskLifecycle.CancelDuringRegistration | crates/oxide-agent-transport-web/src/session.rs:750-756 | a cancel between the two insertions leaves a cancelled task in the running map |
| TaskLifecycle.CancelAroundRegistration | crates/oxide-agent-transport-web/src/session.rs:750-879 | a cancel that starts before and ends after them leaves a running task without a handle |
| TaskLifecycle.RegistrationConsistentExactly | crates/oxide-agent-transport-web/src/session.rs:727-879 | over every schedule of one registration and one cancel, tasks and handles fit together if and only if the cancel comes after the registration at both maps or at neither; what is left in each map |
| TaskLifecycle.CancelledTaskFailedSession | crates/oxide-agent-transport-web/src/session.rs:836-879 | a failure that lost to a cancel can still mark the session |
| TaskLifecycle.SessionEndsInErrorExactly | crates/oxide-agent-transport-web/src/session.rs:836-879 | over every schedule of one failure and one cancel the session ends in error if and only if the failure reached the task first and the session last |
| CancellationTokens.SessionRegistry.ExecutionHandles | crates/oxide-agent-runtime/src/session_registry.rs:49-60 | executor and token of the entry as they are now |
| CancellationTokens.SessionRegistry.Insert | crates/oxide-agent-runtime/src/session_registry.rs:69-79 | an entry with a fresh token that is not cancelled |
| CancellationTokens.SessionRegistry.Cancel | crates/oxide-agent-runtime/src/session_registry.rs:130-143 | cancels the entry's token, false for an unknown id |
| CancellationTokens.SessionRegistry.RenewCancellationToken | crates/oxide-agent-runtime/src/session_registry.rs:148-153 | a fresh token for a known id, everything else as it was |
| CancellationTokens.SessionRegistry.RemoveIfIdle | crates/oxide-agent-runtime/src/session_registry.rs:203-220 | removes exactly an entry that is not busy |
| CancellationTokens.InterleavedCalls.Perform | crates/oxide-agent-runtime/src/session_registry.rs:49-153 | every step of the token state machine is what the registry's methods do to the token objects |
| CancellationTokens.CancelledExactlyWhenRead | crates/oxide-agent-runtime/src/session_registry.rs:130-153 | over every interleaving a token is cancelled exactly when a cancel that fired had read the entry between its renewal and the next |
| CancellationTokens.RunIsCancelledExactly | crates/oxide-agent-runtime/src/session_registry.rs:49-60 | the same for the token a run took with its handles |
| CancellationTokens.CancelledForGood | crates/oxide-agent-runtime/src/session_registry.rs:130-153 | cancelled tokens never revert |
| CancellationTokens.LateCancelSparesNextRun | crates/oxide-agent-runtime/src/session_registry.rs:130-153 | a cancel that read the token before a renewal cannot hit the next run, however late it fires |

## Left out

- Telegram and web handlers, HTTP, the database stores, Leptos views, browser
  tooling, provider code and configuration: I/O, or wrappers over libraries.
- `parse_compiled_modules`, `check_forwarding` and `check_registry_features_exist`:
  the first rests on the scanners modelled here, the others compare sets of names.
- Error messages of the registry tooling: errors are told apart by kind.
- RegistryChecks.CheckCompiledModules: states what is reported, not in which order; the original reports drifting keys in sorted order.
- RegistryAgreement.ParsersAgreeExactly: speaks of texts in which every id and feature line is spelled `key = value` on one line, below a header and not inside an array; of other spellings the build script may miss some (`OtherSpellingIsMissed`).
- Byte offsets of the scanners are character positions here; bracket depth is an
  unbounded integer where the source has 32 bits.
- `get_reminder_job`, memory, profile and artifact maps of the in-memory storage:
  plain map reads and writes.
- Uniqueness of new reminder ids is a hypothesis (`FreshIds`); time zones and cron
  arithmetic are not modelled, a new run time is a parameter.
- The two listings sort with a stable sort over an unordered map; ties may come
  in any order here as there.
- ReminderScheduler.ReminderSchedulerHandle.BootstrapFromStorage: storage does not change and no notification arrives between the users; the wake-up signal is not modelled.
- EventCollector.CollectEvents: progress state, milestones, delivered files and the mapping to browser payloads are not modelled, and the clock is read once a turn.
- The broadcast channel is an unbounded list of messages; a slow receiver that
  loses messages is not modelled.
- Backfill.TakePage: the check that the stream is still current is left out.
- Backfill.BackfillUntil: the stream stays current and the log does not change; the refresh calls around it, keep-alive, snapshot and status messages are not modelled. The page answer follows the in-memory store.
- Grapheme segmentation is a parameter; that it cuts a line into consecutive
  pieces, none of them empty, is a hypothesis where text is kept or parts are laid out.
- MessageFences.PartsBalanceExactly: speaks of messages in which no line over the limit holds a fence; pieces of such a line are cut without regard to fences.
- ProfileGenerator.GeneratedSection: for feature names without quotes, backslashes and line feeds, as Cargo allows no others.
- ProfileGenerator.GeneratedTable: the same.
- `clean_html`, `format_text` and the rest of the text utilities depend on regular
  expressions.
- TaskLifecycle.WebSessionManager.RegisterTaskWithId: the renewal of the session's token in front of it is modelled on its own in `CancellationTokens`.
- TaskLifecycle.WebSessionManager.RegisterExistingTask: the same.
- TaskLifecycle.WebSessionManager.CancelTask: the same for the cancellation of that token.
- Hydration, model overrides and the contents of a running task's handle are not
  modelled.
- CancellationTokens.SessionRegistry.RemoveIfIdle: whether an executor is busy is one flag of the registry entry, which no operation here sets; contents of executors are not modelled.
