# Verified model of the Seafile-RAGFlow connector

A Dafny model of the parts of the connector whose correctness is not visible in any single function:
concurrent log writing, a hand-written WebSocket framer, a data migration, the roll-up and scheduling of
workflow runs, and a handful of loops with a simple mathematical meaning. To check every statement below, run
`dafny verify dfyconfig.toml` (Dafny 4.11) in this directory.

| file | models |
|---|---|
| `LogWriter.dfy`, `LogHandler.dfy` | the dashboard log writer as a step machine over all interleavings, and as an object in the program's own control flow that refines it under any interference |
| `WebSocketCodec.dfy`, `ObsSession.dfy` | frames of RFC 6455 (sections 5.2 and 5.3) as printer and parser, and the session over a socket with arbitrary chunks |
| `TextWrap.dfy`, `ScenePacing.dfy`, `Rounding.dfy` | caption wrapping and the frame loop of the demo recorder |
| `Migration.dfy` | the quarantine UPDATE and the version INSERT of migration 0006 |
| `WorkflowRollup.dfy`, `WorkflowProgress.dfy` | statuses, phases and percentage of a workflow run |
| `WorkflowScheduling.dfy` | scheduling a run with compensation on failure at any call |
| `ParsingProgress.dfy` | parsing counters of the dashboard and of the command line |
| `Retention.dfy`, `TruncateJson.dfy` | retention of dashboard rows, truncation of stored JSON |
| `DocumentPaging.dfy`, `StreamMerge.dfy` | document paging and answer streaming of the RAGFlow client |
| `ColumnNames.dfy`, `Scheduler.dfy` | spreadsheet column names, the periodic scheduler |
| `Basics.dfy`, `MonotonicClock.dfy` | notions shared by the others, and a clock with arbitrary steps |

Conventions. External effects are oracles: clock readings are reals that never go back, `recv` delivers any
non-empty chunk, a persistence attempt stores, raises, or stores and then raises, a server answers a page
number with any page, and every call to the job store may raise. Floats are reals. Numbers are unbounded;
bytes are eight-bit vectors. A loop without an end in the program is modelled for every finite number of passes.
In `LogHandler` the other threads act through `Interfere`, whose contract is any legal stretch of their steps; program
counters and the trace of steps are ghost.

## What the code does not promise

Where a natural reading of the code is false, the model keeps the code and states exactly when the reading holds:

- An entry that the queue accepts after the log worker has exited is never persisted, and is counted only if a later emit evicts it; once no emit is in progress, all puts are accounted for exactly when none was accepted after the exit (`LogWriter.AccountedExactlyWhenNoLatePut`).
- A warning can be refused by a full queue, but not while emits do not overlap: the refusing run calls `emit` from two threads directly, past the lock that `logging.Handler.handle` holds around it (`LogWriter.SerialEmitsNeverRefuseWarnings`, `LogWriter.RacingEmitsRefuseWarning`).
- The handshake read consumes the shortest prefix with the marker exactly when that has at most 8192 bytes (`ObsSession.Session.ReadUntil`); every longer reply fails (`ObsSession.LongReplyFails`).
- A scene has its full number of frames exactly when less than its duration passes between its start and the first look at the clock, or none are due (`ScenePacing.WriteSceneCapture`); a clock that jumps leaves it without any (`ScenePacing.JumpLeavesNoFrame`).
- A bound document gets a version exactly when its lowest file carries a name (`Migration.VersionedExactlyWhenOwnerNamed`).
- The flat status of a run is the join of its phases exactly when a status that decides it is shown by a phase that is not paused, and some job is live or dead or every status is a known one (`WorkflowRollup.FlatStatusIsJoin`; it fails in `WorkflowRollup.UnknownLooksQueued` and `WorkflowRollup.PausedLooksRunning`).
- The log table holds each persisted entry exactly once if and only if no `record_logs` raised after its commit (`LogWriter.RowsAtLeastOnce`).
- The command line and the dashboard look at the same versions exactly when every file's newest version lies in the dataset (`ParsingProgress.SameVersionsExactlyWhen`); a moved file makes their numbers differ (`ParsingProgress.MovedFileDisagrees`).
- A delta stream is concatenated exactly when no fragment looks like a repetition or an extension of the text so far (`StreamMerge.DeltaConcatenates`).
- A sliced list is paged to its end exactly when no two full pages are equal (`DocumentPaging.IterSlices`, `DocumentPaging.EqualPagesStall`).
- A string is cut to the limit exactly when the limit is positive or it was short anyway (`TruncateJson.SafeTextBound`), and a table is pruned only for a positive limit (`Retention.EventTable.Prune`).
- A stored list of repositories is whole exactly when it has at most 50 entries that all fit, and lists each repository once exactly when no two of the first 50 are cut to the same text (`TruncateJson.StoredRepositories`, `TruncateJson.LongIdsCollide`).

## Model

| member | source | states |
|---|---|---|
| `LogWriter.EveryRunKeepsInv` | src/seafile_ragflow_connector/dashboard/logging.py:57-168 | Every interleaving of any number of emitting threads with the worker keeps the invariant: conservation, both counters, put order, worker bookkeeping, prune spacing |
| `LogWriter.EntriesConserved` | src/seafile_ragflow_connector/dashboard/logging.py:81-168 | In every reachable state, for every entry: times offered = persisted + queued + in the open batch + held by a thread + lost |
| `LogWriter.DropCounterExact` | src/seafile_ragflow_connector/dashboard/logging.py:150-168 | The drop counter is never below the number lost; with no emit in progress its excess is exactly the number of emits that met a full queue and then found it empty at eviction |
| `LogWriter.TaskDoneNeverUnderflows` | src/seafile_ragflow_connector/dashboard/logging.py:129-156 | Wherever `task_done` is about to be called, by the worker or by an evicting thread, at least one task is unfinished |
| `LogWriter.PersistedInPutOrder` | src/seafile_ragflow_connector/dashboard/logging.py:102-128 | Persisted batches concatenate to a subsequence of the successful-put order; each has 1 to `batch_size` entries; the queue stays within its bound |
| `LogWriter.BackoffAndPruneSpacing` | src/seafile_ragflow_connector/dashboard/logging.py:121-142 | A batch that fails every attempt asked for back-off * (2^(attempts-1) - 1) in all; successful prunes are at least 60 seconds apart |
| `LogWriter.FlushOnZero` | src/seafile_ragflow_connector/dashboard/logging.py:91-94 | When `flush` leaves on zero unfinished tasks, every put so far, so every put before it began, is persisted or among the counted drops |
| `LogWriter.RowsAtLeastOnce` | src/seafile_ragflow_connector/dashboard/logging.py:133-148 | The table holds every persisted entry at least once, and each exactly once if and only if no `record_logs` raised after its commit |
| `LogWriter.SerialEmitsNeverRefuseWarnings` | src/seafile_ragflow_connector/dashboard/logging.py:150-160 | When emits do not overlap (the lock of `logging.Handler.handle`), the second put never meets a full queue, so no entry of level WARNING or above is ever refused |
| `LogWriter.RacingEmitsRefuseWarning` | src/seafile_ragflow_connector/dashboard/logging.py:150-160 | Without that lock a concrete run of two threads refuses a warning after it has evicted an entry |
| `LogWriter.CloseDrains` | src/seafile_ragflow_connector/dashboard/logging.py:96-131 | Once stop is set, whatever the threads go on emitting: the worker's own steps are bounded by the work left and the entries put since, and it can stop only by exiting. If no thread emits, queue and batch end empty with every put persisted or counted |
| `LogWriter.LateEntriesStay` | src/seafile_ragflow_connector/dashboard/logging.py:96-108 | After the worker has exited nothing more is persisted, what is queued was put after the exit, and it is all that is missing from the account of puts |
| `LogWriter.AccountedExactlyWhenNoLatePut` | src/seafile_ragflow_connector/dashboard/logging.py:81-108 | In every reachable state with the worker exited and no emit in progress: all puts are accounted for if and only if the queue accepted none after the exit |
| `LogWriter.LateEntryIsNeverCounted` | src/seafile_ragflow_connector/dashboard/logging.py:96-108 | A concrete run: close, worker exit, then an emit, leaves an entry queued that is neither persisted nor counted as dropped |
| `LogWriter.OnlyExitedIsStuck` | src/seafile_ragflow_connector/dashboard/logging.py:102-131 | The worker always has a next step, except after it has exited |
| `LogHandler.DashboardLogHandler.Create` | src/seafile_ragflow_connector/dashboard/logging.py:16-50 | A handler exists exactly when all five settings are positive, and starts in the machine's initial state |
| `LogHandler.DashboardLogHandler.Emit` | src/seafile_ragflow_connector/dashboard/logging.py:57-86 | Under any interference: begins exactly this entry, ends with the thread outside `emit`, and the object went on by legal steps of the machine. Undisturbed: appended when there is room; otherwise one drop, and for a warning the oldest entry replaced |
| `LogHandler.DashboardLogHandler.ReplaceOldest` | src/seafile_ragflow_connector/dashboard/logging.py:150-160 | The eviction and second put of one thread are legal steps of the machine under any interference, and leave the thread outside `emit` |
| `LogHandler.DashboardLogHandler.Run` | src/seafile_ragflow_connector/dashboard/logging.py:102-131 | Any number of passes of the worker loop under any interference is a run of the machine; the loop ends exactly where the machine's worker exits, and otherwise each pass ended one round |
| `LogHandler.DashboardLogHandler.CollectBatch` | src/seafile_ragflow_connector/dashboard/logging.py:104-118 | The entries in the local list are the machine's batch; it is full, or the queue was found empty, or the flush interval has passed; or the pass is over because the first wait ran out |
| `LogHandler.DashboardLogHandler.PersistWithRetries` | src/seafile_ragflow_connector/dashboard/logging.py:119-128 | Under any interference: the batch is stored once, or every attempt was made, the full back-off asked for and the batch given up; the object went on by legal steps. Undisturbed, the drop counter rises by exactly the batch given up |
| `LogHandler.DashboardLogHandler.PersistBatch` | src/seafile_ragflow_connector/dashboard/logging.py:133-148 | One attempt: a raise is a failure whatever it committed; a stored batch is pruned after exactly when the last prune is 60 seconds back, so none is left due |
| `LogHandler.DashboardLogHandler.Flush` | src/seafile_ragflow_connector/dashboard/logging.py:91-94 | Looks at the count at most 201 times, 0.01 seconds of sleep between two looks: every look but the last finds something unfinished, and the last finds nothing exactly when it reports a drain. It gives up only once two seconds have passed. A drain means that every entry put so far is persisted or a counted drop. Undisturbed it changes nothing, and with nothing unfinished it reports a drain at once |
| `LogHandler.DashboardLogHandler.Close` | src/seafile_ragflow_connector/dashboard/logging.py:96-100 | Under any interference: sets stop at most once, not at all when it was set before, and stop stays set; undisturbed, nothing else changes |
| `WebSocketCodec.BigEndianRoundTrip` | scripts/obs_webhook_bridge.py:164-167 | Big-endian unpacking undoes packing, for every number that fits |
| `WebSocketCodec.BigEndianDigit` | scripts/obs_webhook_bridge.py:179-184 | The digits stand in network order |
| `WebSocketCodec.ApplyTwice` | scripts/obs_webhook_bridge.py:171-173 | Masking twice under one key is the identity |
| `WebSocketCodec.AppliedBytes` | scripts/obs_webhook_bridge.py:171-173 | Each byte of the payload is xored with one of the four of the key, in turn |
| `WebSocketCodec.FrameLayout` | scripts/obs_webhook_bridge.py:175-187 | The bytes of a frame (RFC 6455, section 5.2): final bit and opcode; mask bit and length in seven bits, or 126 and two bytes, or 127 and eight; key; masked payload |
| `WebSocketCodec.FrameRoundTrip` | scripts/obs_webhook_bridge.py:159-186 | Parsing a printed frame gives back its opcode and payload and uses exactly its bytes, under any key or none, whatever follows on the stream (opcode below 16, payload below 2^64) |
| `WebSocketCodec.DecodeLayout` | scripts/obs_webhook_bridge.py:159-173 | What the parser makes of a header of any width, masked or not |
| `WebSocketCodec.CutFrame` | scripts/obs_webhook_bridge.py:193-204 | A frame cut short anywhere is not read |
| `WebSocketCodec.ShortestForm` | scripts/obs_webhook_bridge.py:175-184 | No byte string that parses to a masked frame with the same payload is shorter than the printed one |
| `WebSocketCodec.StreamRoundTrip` | scripts/obs_webhook_bridge.py:159-186 | Any sequence of frames under any keys is read back exactly, with no byte lost or left over |
| `WebSocketCodec.DecodedPayloadFits` | scripts/obs_webhook_bridge.py:162-170 | Whatever the parser returns has a four-bit opcode and a payload that can be sent again, and used at least two bytes |
| `ObsSession.Until` | scripts/obs_webhook_bridge.py:206-217 | The length of the shortest prefix that contains the marker, or the whole stream when none does |
| `ObsSession.UntilStopsAtReply` | scripts/obs_webhook_bridge.py:206-217 | For a reply holding the marker only at its end that prefix is exactly the reply, whatever follows |
| `ObsSession.Session.ReadExact` | scripts/obs_webhook_bridge.py:193-204 | Over any chunking: exactly the bytes asked for, or an error once the stream ends short of them |
| `ObsSession.Session.ReadUntil` | scripts/obs_webhook_bridge.py:206-217 | Over any chunking: consumes exactly that prefix if it has at most `max_bytes` bytes, and otherwise fails after `max_bytes` + 1; sends nothing |
| `ObsSession.LongReplyFails` | scripts/obs_webhook_bridge.py:206-217 | Every reply of more than 8192 bytes with the marker only at its end makes the handshake fail, whatever it says and whatever follows it |
| `ObsSession.Session.RecvFrame` | scripts/obs_webhook_bridge.py:159-173 | Returns the frame at the front of the stream and consumes it exactly; fails when the stream ends inside it |
| `ObsSession.Session.SendFrame` | scripts/obs_webhook_bridge.py:175-191 | Adds one frame with the given opcode and payload, under an arbitrary mask, to what the peer will read, and nothing else |
| `ObsSession.Session.RecvJson` | scripts/obs_webhook_bridge.py:138-154 | The method does what the stream function says: result, rest of the stream, and for each ping one masked frame of opcode 10 with its payload, in order |
| `ObsSession.Session.Handshake` | scripts/obs_webhook_bridge.py:97-112 | Sends the request and nothing else; accepts the reply exactly when it is not empty, not too long and has " 101 " on its first line, and consumes exactly the reply |
| `ObsSession.ReceivesFirst` | scripts/obs_webhook_bridge.py:138-154 | After any frames that are neither text, binary nor close, the first that is decides: a close frame is the error "closed", a message that is no JSON or no object an error of its own, an object is returned; exactly the pings before it are answered, each once and in order, and nothing behind it is consumed |
| `ObsSession.EndsUnexpectedly` | scripts/obs_webhook_bridge.py:138-204 | A stream that ends inside a frame, or before one that decides, is the error "ended unexpectedly", with exactly its pings answered |
| `ObsSession.ReceivesEveryStream` | scripts/obs_webhook_bridge.py:138-204 | The same for every byte string whatever: the frames passed over, the pings among them, and how receiving ends behind them; an object is returned only for a text or binary frame that is one |
| `ObsSession.Session.ReadConnection` | scripts/obs_webhook_bridge.py:97-112 | Over any chunking: after an accepted reply all frames sent are read back exactly and the stream is used up; after any other reply no frame is read |
| `TextWrap.GreedyIsValid` | scripts/record_real_chrome_demo.py:641-654 | The lines concatenate to the words in order, and each fits the limit unless it is a single word |
| `TextWrap.GreedyIsOptimal` | scripts/record_real_chrome_demo.py:641-654 | No other split with these two properties has fewer lines |
| `TextWrap.CutExactlyWhenNeeded` | scripts/record_real_chrome_demo.py:654 | Words are cut off exactly when no split into fitting lines gets by with three |
| `TextWrap.WrapText` | scripts/record_real_chrome_demo.py:641-654 | The loop computes the first three lines of the greedy split, for every limit |
| `TextWrap.SplitJoin` | scripts/record_real_chrome_demo.py:641-654 | Splitting a line at its spaces gives back its words |
| `TextWrap.LinesSpellWords` | scripts/record_real_chrome_demo.py:641-654 | The lines of a split, read one after the other, spell the words in order |
| `ScenePacing.WriteSceneCapture` | scripts/record_real_chrome_demo.py:828-891 | After every pass the frames written lie between elapsed*fps - 0.5 and elapsed*fps + 1.5; at the end there are at least round(duration*fps) if and only if less than the duration passes before the first look at the clock or none are due; both writers got the same frames; `elapsed` advanced by frames/fps; and no time is idled away: each pass reads the clock at most five times and sleeps for a frame period at most |
| `ScenePacing.JumpLeavesNoFrame` | scripts/record_real_chrome_demo.py:843-850 | A clock that jumps past the duration before that look: frames are due and none is written |
| `ScenePacing.PassKeepsPace` | scripts/record_real_chrome_demo.py:850-880 | One pass lasting a frame period or more keeps the drift bound and the bound on the number of passes |
| `ScenePacing.WriteBoth` | scripts/record_real_chrome_demo.py:871-874 | Both files get the same copies of the frame; a missing second file is skipped |
| `ScenePacing.PadScene` | scripts/record_real_chrome_demo.py:881-888 | The last frame fills the scene up to its expected count when some frame was captured, and `elapsed` counts it |
| `ScenePacing.Pace` | scripts/record_real_chrome_demo.py:877-880 | A pass lasts at least one frame period from its start |
| `Rounding.Round` | scripts/record_real_chrome_demo.py:866-869 | Python's `round`: within one half, ties to the even neighbour |
| `Rounding.Hundredths` | src/seafile_ragflow_connector/dashboard/server.py:2466 | `round(x, 2)` has two decimals |
| `Rounding.RoundMonotone` | src/seafile_ragflow_connector/dashboard/server.py:2466 | Rounding is monotone |
| `Migration.OwnerIsLowest` | migrations/versions/0006_sync_consistency_state.py:401-428 | After the UPDATE a (dataset, document) pair is bound by a file if and only if that file has the lowest id of those bound to it before |
| `Migration.TargetsInjective` | migrations/versions/0006_sync_consistency_state.py:398-428 | After the UPDATE two different files are never bound to the same pair |
| `Migration.NoTargetLost` | migrations/versions/0006_sync_consistency_state.py:398-428 | Every pair bound before is still bound, by an unchanged file of no higher id |
| `Migration.UpdateIdempotent` | migrations/versions/0006_sync_consistency_state.py:401-428 | A second run of the UPDATE changes nothing |
| `Migration.UniqueExactlyWhenInjective` | migrations/versions/0006_sync_consistency_state.py:275-279 | The inserted versions satisfy the unique constraint exactly when no two bound and named files share a pair |
| `Migration.VersionedExactlyWhenOwnerNamed` | migrations/versions/0006_sync_consistency_state.py:430-452 | A pair gets a version exactly when the lowest file bound to it carries a name |
| `Migration.NamedLoserLeavesNoVersion` | migrations/versions/0006_sync_consistency_state.py:430-452 | A concrete legacy state in which a bound document with a named file ends with no version |
| `Migration.Database.QuarantineDuplicates` | migrations/versions/0006_sync_consistency_state.py:401-428 | One pass over the rows in any order, updating the table in place, gives exactly the result of the self-join UPDATE; files that were not losers are unchanged |
| `Migration.Database.InsertVersions` | migrations/versions/0006_sync_consistency_state.py:430-455 | The inserted rows are, one for one, the versions of the bound and named files; it fails only where two such files share a pair |
| `Migration.Database.Upgrade` | migrations/versions/0006_sync_consistency_state.py:398-455 | For every legacy table, column by column: a file that shares its document with one of lower id is unbound, nameless and marked for repair, every other is untouched; each bound and named file gets one version that repeats its columns, the document name before the ingested one; the INSERT never violates the constraint |
| `WorkflowRollup.Phases` | src/seafile_ragflow_connector/dashboard/server.py:2833-2871 | The grouping loop and the loop over the phase definitions compute the phase list |
| `WorkflowRollup.PhaseMeans` | src/seafile_ragflow_connector/dashboard/server.py:2846-2870 | What is shown of a phase: paused exactly when each of its jobs is finished or asked to pause and some is asked; total, completed, and their percentage to two decimals |
| `WorkflowRollup.CompletedCounts` | src/seafile_ragflow_connector/dashboard/server.py:2444-2447 | Completed is the number of statuses that are succeeded, cancelled or dead |
| `WorkflowRollup.JobsOfConcat` | src/seafile_ragflow_connector/dashboard/server.py:2834-2836 | Grouping loses and reorders no job: the jobs of a phase are taken job by job |
| `WorkflowRollup.JobsOfOne` | src/seafile_ragflow_connector/dashboard/server.py:2834-2836 | A job belongs to the phase of its type |
| `WorkflowRollup.PhasesOfTypes` | src/seafile_ragflow_connector/dashboard/server.py:2803-2830 | Which job types make up which phase; every type not listed is a file job |
| `WorkflowRollup.PhasesConserveCounts` | src/seafile_ragflow_connector/dashboard/server.py:2833-2871 | Phase totals sum to jobs plus cleanup rows, and phase completed counts to the run's completed count |
| `WorkflowRollup.FlatStatusIsJoin` | src/seafile_ragflow_connector/dashboard/server.py:2738-2888 | For every run: the flat status is the highest phase status (running > retrying > queued > failed > succeeded > cancelled > paused) if and only if a status that decides it is shown by an unpaused phase, and some job is live or dead or every status is known |
| `WorkflowRollup.JoinUnlessUnknown` | src/seafile_ragflow_connector/dashboard/server.py:2738-2888 | In a run in which no pause is requested, an unknown status with nothing live or dead is the only exception |
| `WorkflowRollup.UnknownLooksQueued` | src/seafile_ragflow_connector/dashboard/server.py:2738-2753 | One succeeded job and one of unknown status: the run looks queued, which is not the join of its phases |
| `WorkflowRollup.PausedLooksRunning` | src/seafile_ragflow_connector/dashboard/server.py:2848-2876 | One running job whose pause is requested: the run looks running, which is not the join of its phases |
| `WorkflowRollup.AggregateIgnoresOrder` | src/seafile_ragflow_connector/dashboard/server.py:2738-2753 | The flat status does not depend on the order of the jobs |
| `WorkflowRollup.CleanupAlone` | src/seafile_ragflow_connector/dashboard/server.py:2768-2773 | A run of cleanup rows alone is retrying while one is open, then failed if one is dead, else succeeded |
| `WorkflowRollup.PhaseListMembers` | src/seafile_ragflow_connector/dashboard/server.py:2839-2871 | A phase is listed exactly when it has a status to show, with the status of its own jobs |
| `WorkflowRollup.StatusHasPhase` | src/seafile_ragflow_connector/dashboard/server.py:2803-2830 | Every status of a run, cleanup rows included, is counted under a defined phase |
| `WorkflowProgress.ChildPercentDecided` | src/seafile_ragflow_connector/dashboard/server.py:2986-3032 | Nothing is reported exactly when no run has file progress; otherwise one run decides, an active one if there is any, and of its kind the first of those that started last: its own percentage, clamped, or else the share of its items completed |
| `WorkflowProgress.FirstKeyCounts` | src/seafile_ragflow_connector/dashboard/server.py:3008-3019 | Of the keys of a count the first one present decides, cut to a whole number and at least 0 |
| `WorkflowProgress.ActiveRunDecides` | src/seafile_ragflow_connector/dashboard/server.py:2987-2999 | While some child run with file progress is active, finished ones do not matter |
| `WorkflowProgress.LatestStarted` | src/seafile_ragflow_connector/dashboard/server.py:3002-3007 | Among the candidates the run chosen is the first of those that started last |
| `WorkflowProgress.Share` | src/seafile_ragflow_connector/dashboard/server.py:2449-2462 | A repository's share is between 0 and 1, and positive only while it has an open file job |
| `WorkflowProgress.RunProgress` | src/seafile_ragflow_connector/dashboard/server.py:2443-2469 | The loop over the repositories computes completed, total and the percentage, whose meaning the next four rows give |
| `WorkflowProgress.PercentMeans` | src/seafile_ragflow_connector/dashboard/server.py:2443-2469 | 0 with nothing to do or nothing begun; 100 when every status is terminal; over distinct repositories within rounding of (completed + shares) * 100 / total; never outside 0 to 100 |
| `WorkflowProgress.PartialAdds` | src/seafile_ragflow_connector/dashboard/server.py:2449-2462 | The shares add up, one for each repository listed |
| `WorkflowProgress.ShareDecided` | src/seafile_ragflow_connector/dashboard/server.py:2449-2462 | A repository with an unfinished file job and a child run of its own with file progress gets the percentage of the run that decides among its own; any other gets nothing |
| `WorkflowProgress.OwnRuns` | src/seafile_ragflow_connector/dashboard/server.py:2459-2461 | The child runs looked at for a repository are exactly its own, in their order |
| `WorkflowProgress.OtherRunsDoNotMatter` | src/seafile_ragflow_connector/dashboard/server.py:2459-2461 | A child run of another repository, wherever it stands, does not change a repository's share |
| `WorkflowProgress.ClampNeverBinds` | src/seafile_ragflow_connector/dashboard/server.py:2463-2469 | Over distinct repositories completed + partial never exceeds the total, so the `min` never binds |
| `WorkflowProgress.RepeatedRepositoryOvershoots` | src/seafile_ragflow_connector/dashboard/server.py:2449-2469 | With a repository listed twice it would: one running job whose child run is complete counts for two |
| `WorkflowProgress.FinishingNeverLowers` | src/seafile_ragflow_connector/dashboard/server.py:2443-2469 | Moving any one job to a terminal status, all else fixed, never lowers the percentage |
| `WorkflowScheduling.ScheduleOne` | src/seafile_ragflow_connector/dashboard/server.py:2229-2275 | One round: the calls made for a repository, in order, up to the first that raises; what was created, owned and bound |
| `WorkflowScheduling.ScheduleAll` | src/seafile_ragflow_connector/dashboard/server.py:2225-2275 | The loop up to the first call that raises: its lists are exactly the jobs enqueued, those created, and those bound, in order, and no call follows the one that raised |
| `WorkflowScheduling.Compensate` | src/seafile_ragflow_connector/dashboard/server.py:2276-2298 | Every created job, in order, is passed to `request_cancel`, whatever each call does; the aborted ids are those the store reported |
| `WorkflowScheduling.HandleRun` | src/seafile_ragflow_connector/dashboard/server.py:2225-2398 | For every failure point: the answer lists exactly the jobs enqueued, the one whose subscription or binding raised included; checked is their number, checked + skipped = selected; the subscription is dropped first, then all and only the created jobs are passed to `request_cancel`; nothing is signalled. On success every repository is subscribed once and exactly the created jobs are signalled, in order |
| `WorkflowScheduling.LogMembers` | src/seafile_ragflow_connector/dashboard/server.py:2258-2295 | Which calls of a log make a job listed, created or aborted |
| `WorkflowScheduling.CallMembers` | src/seafile_ragflow_connector/dashboard/server.py:2258-2295 | Which calls of a log are its cancel requests, signals, bindings and subscriptions |
| `WorkflowScheduling.WorkflowRepoIds` | src/seafile_ragflow_connector/dashboard/server.py:3223-3236 | Not a list, nothing selected, more than 200, or the non-empty texts where they first occur |
| `WorkflowScheduling.RepoIdsDistinct` | src/seafile_ragflow_connector/dashboard/server.py:3227-3231 | These are pairwise distinct, exactly the non-empty texts given, in the order of first occurrence |
| `ParsingProgress.LatestStates` | src/seafile_ragflow_connector/dashboard/server.py:3172-3174 | One pass with `setdefault` over versions sorted newest first selects, for every file, the state of its highest version id |
| `ParsingProgress.CountByRepo` | src/seafile_ragflow_connector/dashboard/server.py:3175-3188 | Per repository: tracked = distinct files = done + pending + failed, running <= pending, and each counter is the number of files whose newest version is in its states |
| `ParsingProgress.CountedStates` | src/seafile_ragflow_connector/dashboard/server.py:3175-3188 | Which states count as done, running and failed |
| `ParsingProgress.ParsingByRepo` | src/seafile_ragflow_connector/dashboard/server.py:3150-3192 | The same, from the version table, with the percentage per repository |
| `ParsingProgress.PercentDoneMeans` | src/seafile_ragflow_connector/dashboard/server.py:3189-3191 | The share of files done in percent to two decimals: 0 for none, 100 for all |
| `ParsingProgress.ParseWorkState` | src/seafile_ragflow_connector/app/cli.py:1749-1769 | The command line's pending and dead are the files whose newest version within one dataset is parsing or dead |
| `ParsingProgress.SameVersionsExactlyWhen` | src/seafile_ragflow_connector/app/cli.py:1749-1763 | The command line looks at the versions the dashboard looks at exactly when every file's newest version lies in the dataset asked for |
| `ParsingProgress.CommandLineAgrees` | src/seafile_ragflow_connector/app/cli.py:1749-1769 | Then the command line's (pending, dead) as returned equals the dashboard's (running, failed) as returned |
| `ParsingProgress.MovedFileDisagrees` | src/seafile_ragflow_connector/app/cli.py:1749-1769 | A file moved to another dataset: the command line returns pending 1 where the dashboard returns running 0 and done 1 |
| `ParsingProgress.LatestUnique` | src/seafile_ragflow_connector/dashboard/server.py:3172-3174 | With unique version ids the map of newest states is unique, so any visiting order gives the same |
| `Retention.PruneAgain` | src/seafile_ragflow_connector/dashboard/store.py:819-834 | Keeping the top rows, inserting more, and keeping the top rows again is keeping the top rows of everything, for any timestamps and any choice among ties |
| `Retention.TopIsLast` | src/seafile_ragflow_connector/dashboard/store.py:829-831 | With increasing timestamps the rows kept are exactly the last min(n, limit) events ever recorded |
| `Retention.EventTable.Prune` | src/seafile_ragflow_connector/dashboard/store.py:819-834 | After a prune the table is a top choice of all events ever recorded; a limit of zero or less keeps all |
| `Retention.EventTable.RecordChange` | src/seafile_ragflow_connector/dashboard/store.py:248-272 | After every recorded change the table is the top choice of the whole history, the last min(n, limit) events when timestamps increase |
| `Retention.EventTable.StageChange` | src/seafile_ragflow_connector/dashboard/store.py:274-310 | A staged change is inserted without a prune and counted in by the next one |
| `Retention.EventTable.RecordLogs` | src/seafile_ragflow_connector/dashboard/store.py:333-375 | A batch under one timestamp; without a prune the table is the top choice at the last prune plus everything since |
| `Retention.SelectLatestFirst` | src/seafile_ragflow_connector/dashboard/store.py:829-831 | The ordered SELECT, rows of one timestamp in any order |
| `TruncateJson.SafeTextBound` | src/seafile_ragflow_connector/dashboard/store.py:76-82 | A cut string is within the limit exactly when the limit is positive or the string was short anyway; it then keeps limit - 1 characters and an ellipsis. For a limit of zero or less the slice counts from the end |
| `TruncateJson.TruncateBounds` | src/seafile_ragflow_connector/dashboard/store.py:100-110 | For a positive limit every string, list (50) and object (100) is within the bounds at every depth |
| `TruncateJson.TruncateIdentity` | src/seafile_ragflow_connector/dashboard/store.py:100-110 | Trees within the bounds pass unchanged |
| `TruncateJson.TruncateAt` | src/seafile_ragflow_connector/dashboard/store.py:100-110 | At every path: exactly the first 50 of each list and the first 100 of each object stay, in place and under their keys, each with the cut form of what was there |
| `TruncateJson.UnchangedExactlyWhenBounded` | src/seafile_ragflow_connector/dashboard/store.py:100-110 | For a positive limit only they do, and truncating twice is truncating once |
| `TruncateJson.NegativeLimitKeepsCutting` | src/seafile_ragflow_connector/dashboard/store.py:76-82 | With a negative limit a second cut changes the result again |
| `TruncateJson.StoredRepositories` | src/seafile_ragflow_connector/dashboard/store.py:137-138 | The repository list of a stored workflow parent is its first 50 entries, each cut; it is whole if and only if there are at most 50 and all fit, and lists each repository once if and only if no two of them are cut to the same text (for a positive limit, as the settings demand) |
| `TruncateJson.CutAlikeExactly` | src/seafile_ragflow_connector/dashboard/store.py:76-82 | Two different texts are cut to the same exactly when both are too long with one beginning, or one is too long and the other is its cut form |
| `TruncateJson.LongIdsCollide` | src/seafile_ragflow_connector/dashboard/store.py:76-82 | Two long ids with a common beginning become one |
| `DocumentPaging.IterDocuments` | src/seafile_ragflow_connector/clients/ragflow.py:290-327 | Against any server drawing from finitely many pages it ends, on a short, an empty or a repeated page; the pages yielded are pairwise distinct |
| `DocumentPaging.SlicedListIsYielded` | src/seafile_ragflow_connector/clients/ragflow.py:290-327 | What the end of the iteration means against a server that slices a fixed list: finished with the whole list exactly when no two full pages are equal, and otherwise stalled after the pages before the repeated one |
| `DocumentPaging.IterSlices` | src/seafile_ragflow_connector/clients/ragflow.py:290-327 | The call itself, against that server: finished if and only if no two full pages are equal, then with exactly the list after floor(n/size) + 1 requests; always for pairwise distinct documents; otherwise stalled with a proper prefix |
| `DocumentPaging.EqualPagesStall` | src/seafile_ragflow_connector/clients/ragflow.py:313-322 | Two full pages of one document: a stall, with only the first yielded |
| `DocumentPaging.DistinctDocumentsNeverStall` | src/seafile_ragflow_connector/clients/ragflow.py:313-322 | Pairwise distinct documents make distinct full pages |
| `StreamMerge.StreamedAnswer.Add` | src/seafile_ragflow_connector/clients/ragflow.py:633-640 | Rewriting the list of parts in place merges the fragment into the text |
| `StreamMerge.StreamedAnswer.Run` | src/seafile_ragflow_connector/clients/ragflow.py:586-630 | The collected answer is the fold of the merge over the fragments before the end of the stream |
| `StreamMerge.SingleFragment` | src/seafile_ragflow_connector/clients/ragflow.py:602-625 | A text that is not empty is a fragment, any other event is none |
| `StreamMerge.FragmentsConcat` | src/seafile_ragflow_connector/clients/ragflow.py:602-625 | Stretches of a stream that do not end it add up |
| `StreamMerge.EndCutsOff` | src/seafile_ragflow_connector/clients/ragflow.py:602-618 | The first end of the stream cuts off whatever follows |
| `StreamMerge.MergeKeepsText` | src/seafile_ragflow_connector/clients/ragflow.py:633-640 | The old text stays a prefix, the text ends with the fragment, and repeating the fragment changes nothing |
| `StreamMerge.CumulativeEndsAsLast` | src/seafile_ragflow_connector/clients/ragflow.py:633-640 | A stream in which every fragment extends the one before ends as its last fragment |
| `StreamMerge.DeltaConcatenates` | src/seafile_ragflow_connector/clients/ragflow.py:633-640 | A delta stream ends as the concatenation exactly when no non-empty fragment after the first text is a suffix or an extension of the text before it; otherwise it ends shorter |
| `StreamMerge.RepeatedPieceIsLost` | src/seafile_ragflow_connector/clients/ragflow.py:633-640 | A concrete delta stream that loses a piece |
| `ColumnNames.ColumnName` | src/seafile_ragflow_connector/dashboard/export.py:396-401 | The loop returns letters A to Z that decode to the index, and the empty string only for 0 |
| `ColumnNames.DecodeInjective` | src/seafile_ragflow_connector/dashboard/export.py:396-401 | Different names decode to different indexes, so together with the loop the naming is a bijection |
| `ColumnNames.IndexOrderIsShortlex` | src/seafile_ragflow_connector/dashboard/export.py:396-401 | Index order is shortlex order of the names |
| `Scheduler.SimpleScheduler.Start` | src/seafile_ragflow_connector/jobs/scheduler.py:32 | The dictionary before the first pass; of tasks sharing a name the last one counts |
| `Scheduler.SimpleScheduler.RunPass` | src/seafile_ragflow_connector/jobs/scheduler.py:33-53 | On a disabled or failing check nothing happens at all; on an enabled pass exactly the tasks whose interval has passed since their entry run, in list order, and only their entries are renewed |
| `Scheduler.SimpleScheduler.RunPasses` | src/seafile_ragflow_connector/jobs/scheduler.py:31-53 | Over every finite run, calls are made on enabled passes only, pass by pass, in list order; with distinct names each task runs exactly when its own interval, its own last run and the clock say so |
| `Scheduler.FirstRun` | src/seafile_ragflow_connector/jobs/scheduler.py:32-46 | A task that has not run yet runs on exactly the first enabled pass that reads its initial last run plus its interval or more |
| `Scheduler.NextRun` | src/seafile_ragflow_connector/jobs/scheduler.py:33-53 | After a run, on exactly the first enabled pass that reads that run plus its interval or more |
| `Scheduler.RunsSpaced` | src/seafile_ragflow_connector/jobs/scheduler.py:46-52 | Readings of consecutive runs of a task are at least its interval apart |
| `Scheduler.RunsAgain` | src/seafile_ragflow_connector/jobs/scheduler.py:33-53 | A task that ran runs again, at the latest on the first enabled pass whose reading is its interval or more later |
| `Scheduler.RunsSoonEnough` | src/seafile_ragflow_connector/jobs/scheduler.py:33-53 | If passes stay enabled and start at most D apart, that next run comes less than interval + D after the last |
| `Scheduler.FailuresDoNotMatter` | src/seafile_ragflow_connector/jobs/scheduler.py:48-52 | Two schedulers under the same clock readings and switch: a task in both is called on the same passes, whatever fails and whatever other tasks there are; with equal task lists all calls are the same, in the same order |

## Left out

- LogWriter.BackoffAndPruneSpacing: states the waiting time asked for; once stop is set the wait of the source returns at once, so the time spent can be less.
- LogWriter.FlushOnZero: speaks of the exit on zero; the two-second deadlines of `flush` and `close` only end the waiting.
- LogWriter.EntriesConserved: leaves out the parsing of a record's message into an entry, and the process-wide metric beside the drop counter.
- LogHandler.DashboardLogHandler.PersistWithRetries: the store is one that has `record_logs`; the entry-by-entry fallback for other stores is not modelled.
- LogHandler.DashboardLogHandler.Close: leaves out the join, which only waits, and the registry of the logging module.
- ObsSession.Session.RecvJson: takes JSON decoding as a given function of the payload; the FIN bit and continuation frames are ignored as in the source, so no reassembly is claimed.
- ObsSession.Session.ReadExact: does not model receive timeouts; a stream is what arrives before the peer closes.
- TextWrap.WrapText: starts from the words; of white space only the blank is modelled.
- ScenePacing.WriteSceneCapture: leaves out what is drawn, the poster and the contact frames; a frame is known by the pass that captured it. A frame rate of zero or less is outside it.
- Migration.Database.Upgrade: covers the two data statements and the constraint they meet; the creation of the other tables and the downgrade only change the schema.
- WorkflowProgress.RunProgress: takes progress values as numbers or null; a text in their place raises or counts as zero in the source.
- WorkflowScheduling.HandleRun: leaves out the admission checks before it, the audit record, and failures of the writes to the run's record after it.
- WorkflowScheduling.WorkflowRepoIds: starts from the entries converted to stripped text.
- Scheduler.SimpleScheduler.RunPasses: claims nothing about schedules of tasks that share a name; they share one dictionary entry and can delay each other.
- DocumentPaging.IterDocuments: identifies documents with the same canonical JSON text, as the source does.
- The job store, the worker, the sync-state store and the admin-control store: external here; no guarantee of theirs is assumed.
- HTTP handling, authentication, access control, TLS, rendering, translation and settings validation: branch-by-branch code without a deeper property.
- JSON, UTF-8, redaction and hashing: not modelled.
- The request and identification dialogue of the OBS session above `_recv_json`: a short sequence of checks on decoded messages.
