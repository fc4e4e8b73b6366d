# Dagryn: the hard core, modelled and proved in Dafny

Dagryn runs task graphs locally and on a cluster of workers. This project models the parts of it
whose correctness spans several functions, threads or failures, and proves what those parts promise:

- **Nearest task name** (`EditScripts`, `ClosestTask`): the two-row edit distance computes the minimum
  over all edit scripts, that minimum is a metric, and the suggestion is a nearest qualifying name
  whatever order the task map is visited in.
- **Worker agent and its server end** (`TaskEvents`, `AgentProtocol`, `AgentResults`, `ShutdownWait`,
  `TaskStream`): the agent's receive loop, sender goroutine, task goroutines and shutdown thread are a
  labelled step relation, one step per operation on a channel, an atomic or the wait group. Theorems hold
  for every sequence of steps.
- **Registry, routing, dispatch, re-queuing** (`Registry`, `RoundRobin`, `Routing`, `Dispatch`,
  `Assignments`, `Reassigner`): classes over maps of connected workers and rows of assignments, each
  method proved against a specification function whose runs are then reasoned about.
- **Durable state** (`Sorting`, `MigrationFiles`, `Migrations`, `RunLogs`, `TornLogs`, `Retention`,
  `LocalRuns`): migrations whose transactions may fail anywhere, an append-only log of encoded lines,
  and retention over a list sorted newest first.
- **Token lifecycles** (`TokenService`, `RefreshChain`, `TokenChain`, `DoubleSpending`, `RefreshClient`,
  `DeviceCodes`): refresh-token rotation (RFC 6749, section 6) under concurrent requests, given-up calls and
  a server that works statement by statement, what the client holds and sends meanwhile, and device codes
  (RFC 8628, sections 3.3 to 3.5) under interleaved callers.

`dafny verify dfyconfig.toml` checks the whole project.

## How the code is represented

- Strings that the code indexes by byte are byte sequences. Go's `int32` loads and the 64-bit counter
  keep their width; other integers are unbounded.
- Clocks, database and file-system failures, map iteration order and the order of directory entries are
  parameters: a contract holds for every value of them.
- Ids that the code draws at random (assignment ids, JTIs, device and user codes) are never drawn twice.
  A worker id is different: the database gives a host that registers again its old id, so connections
  are counted separately from ids.
- Where threads interleave there is a `State`, a `Step` datatype, a total function `Next` (a step that is
  not enabled changes nothing) and `Run` over step sequences. Fields under "what happened so far" record
  history and influence no step.
- A store call that the cited files only call through an interface has the smallest meaning that its SQL
  in `pkg/database/repo/cluster.go` gives it: a status update overwrites, a retry increment adds one,
  resets the status to pending and clears the worker.

## What the models showed

- `FindClosestTask` answers with the empty string both for "nothing is close" and for a task that is
  itself named by the empty string. `EmptyAnswerMeansNothingQualifies` says exactly when the two meanings
  coincide; `EmptyNamedTaskIsAmbiguous` is a concrete case.
- Round-robin is fair in every window without a counter wrap, and in every window at all exactly when the
  number of workers divides 2^64.
- `Shutdown` can miss one assignment: the one whose check passed before the flag was set and that the
  receive loop adds to the wait group only after the wait ended. `WaitMissesExactlyTheUncounted` states
  exactly when; `LateAcceptIsNotAwaited` is a run in which its result is abandoned.
- `Shutdown` can wait for good: when a send error has ended the sender goroutine and the send channel
  cannot take the results still to come. `WaitCanEndExactlyWhenNotHopeless` states exactly when.
- Several replicas, each with its reassigner, can together exceed a retry limit by one less than their
  number, and not by more (`RequeuesAreBounded`, `OvershootIsReached`).
- A host that registers again before its old stream has ended can lose its new connection to the old
  stream's deferred deregistration (`ReconnectIsTornDown`), or leave the old connection's channels open
  for good (`ReplacedConnectionIsNeverClosed`). Both are characterised exactly.
- A result that reaches the database between the reassigner's listing and its update is overwritten
  (`LateResultIsOverwritten`); the retry bound holds all the same.
- A log line whose encoding ends in a carriage return is lost, since the line scanner strips one;
  `ReadsBackExactlyWhen` states when a log reads back whole. JSON objects never end that way. After a
  torn write the next entry is lost with it (`AppendAfterTornWriteIsLost`).
- The server alone does not keep a refresh token from being spent twice; the client's lock does, except
  when the client gives up on a call that has not spent its token yet (`TokensAreSpentOnce`,
  `GivingUpEarlyCanSpendTwice`).

Two comments in the code say more than it does, and the models follow the code. `AppendLogs` is called
atomic, but a write that fails part-way leaves a first part of the batch. `Consume` is said to make a code
unusable; it deletes an authorized row and does not look at its expiry.

## Model

| member | source | states |
|---|---|---|
| EditScripts.DistanceIsCheapest | internal/cli/errors.go:144-176 | the recurrence the table is filled by equals the minimum cost over all scripts of keeps, substitutions, insertions and deletions: some script attains it, none is cheaper, and only that number is such a minimum |
| EditScripts.NoScriptIsCheaper | internal/cli/errors.go:159-171 | every script turning one text into another costs at least the distance |
| EditScripts.BestAttains | internal/cli/errors.go:159-171 | the script read off the recurrence is a correct script of exactly that cost |
| EditScripts.ComposeIsSequencing | internal/cli/errors.go:143-176 | two scripts in sequence compose into one script with the same effect that costs no more than both |
| EditScripts.TriangleInequality | internal/cli/errors.go:143-176 | the distance over a detour is never shorter |
| EditScripts.Symmetric | internal/cli/errors.go:143-176 | the distance is symmetric |
| EditScripts.ZeroOnlyOnEqual | internal/cli/errors.go:143-176 | the distance is zero exactly on equal texts |
| EditScripts.LengthBounds | internal/cli/errors.go:143-176 | the distance lies between the length difference and the longer length |
| ClosestTask.NextCell | internal/cli/errors.go:161-171 | one inner iteration extends the current row's correct part by one cell, given the complete previous row |
| ClosestTask.Levenshtein | internal/cli/errors.go:144-176 | the two swapped rows yield the distance, hence the minimum over all edit scripts, for all texts including empty ones |
| ClosestTask.FindClosestTask | internal/cli/errors.go:124-141 | a missing configuration gives the empty answer; otherwise the answer is a task at minimal distance within min(3, length), or empty when none qualifies, for any visiting order |
| ClosestTask.OrderDoesNotMatter | internal/cli/errors.go:132-138 | two visiting orders give answers at equal distance |
| ClosestTask.EmptyAnswerMeansNothingQualifies | internal/cli/errors.go:129-140 | a non-empty answer names a task; the empty answer means that nothing qualifies if and only if no task with the empty name is itself nearest |
| ClosestTask.EmptyNamedTaskIsAmbiguous | internal/cli/errors.go:129-140 | a configuration in which the empty answer does name a qualifying task |
| TaskEvents.LifecycleWritesStatusHistory | pkg/cluster/grpc_server.go:313-341 | a prefix of [Rejected] or [Accepted, Result] translates event by event to a prefix of [Pending], [Running, Completed] or [Running, Failed]; a result becomes Completed exactly if the execution succeeded or was cached |
| AgentProtocol.EveryRunHolds | pkg/agent/agent.go:236-325 | the inductive invariant of all runs: counters match goroutine stages, each assignment is in one place, the events queued about it fit that place, none is dropped, the drain and wait conditions |
| AgentProtocol.LoadStaysBounded | pkg/agent/agent.go:54-56 | in every run active tasks are at most the tokens held, those at most the limit (4 when not positive), the send channel stays within its capacity, and the wait group counts exactly the goroutines not finished, however many assignments arrive |
| AgentProtocol.EventsOfOneAssignment | pkg/agent/agent.go:240-323 | in every interleaving the events sent about one assignment are a prefix of [Rejected] or [Accepted, Result], and what the server has read is a prefix of those |
| AgentResults.EveryResultWasExecuted | pkg/agent/agent.go:311-322 | in every run each result that is queued, sent or read, and each that a goroutine is about to queue, is the status that an execution of that very assignment yielded |
| AgentResults.EveryRunSeesErrors | pkg/agent/agent.go:242-258 | the sender goroutine exits only because the context is cancelled, with no event in hand, or because a send failed, and then the error waits for the receive loop until the loop returns |
| AgentResults.ErrorsEndTheLoop | pkg/agent/agent.go:263-274 | after a failed send the receive loop takes at most the one assignment it already waits for, in any continuation; after a failed receive none |
| AgentResults.OnlyFullnessBlocks | pkg/agent/agent.go:240-262 | in every run an event waits to be queued only while twice the limit are queued already, and a goroutine waits to begin only while as many as the limit hold a token |
| AgentProtocol.DrainRejectsTheRest | pkg/agent/agent.go:273-299 | after the drain flag is set at most one assignment is accepted, the one already past the check; every one whose check finds the flag is sent exactly Rejected, unless the context ends while its rejection waits for the send channel; no other is rejected |
| AgentProtocol.NoAssignmentIsDropped | pkg/agent/agent.go:268-324 | until the context ends, each assignment the receive loop has finished with has been answered: Rejected if its check found the flag, Accepted otherwise |
| AgentProtocol.ShutdownWaitsForResults | pkg/agent/agent.go:392-401 | unless something else cancelled the context, every assignment in the wait group when the flag was set has its result queued once the wait is over, and so has every accepted one except perhaps the one that was between check and count |
| AgentProtocol.WaitMissesExactlyTheUncounted | pkg/agent/agent.go:290-303 | at the moment the wait can end, an accepted assignment is without its result if and only if the receive loop has yet to add it to the wait group |
| AgentProtocol.LateAcceptIsNotAwaited | pkg/agent/agent.go:290-323 | a run in which that one assignment is accepted and its result abandoned although only Shutdown cancelled |
| ShutdownWait.WaitCanEndExactlyWhenNotHopeless | pkg/agent/agent.go:245-257 | in every run, once Shutdown waits, the wait can still end without an outside cancellation if and only if the sender goroutine is still there, the context is already cancelled, or the send channel has room for every result still to come; otherwise it lasts for good |
| ShutdownWait.HopelessWaitIsReached | pkg/agent/agent.go:314-322 | a run that reaches such a wait: a send error ends the sender while the channel is full, and then Shutdown begins |
| ShutdownWait.NextStaysHopeless | pkg/agent/agent.go:392-401 | no step except an outside cancellation ends such a wait |
| ShutdownWait.SomethingHelps | pkg/agent/agent.go:303-323 | in every other wait with goroutines left some thread has a step that brings its end nearer |
| AgentProtocol.NextKeepsCounts | pkg/agent/agent.go:301-323 | no step of any thread breaks the agreement between semaphore, active count, wait group and goroutine stages |
| AgentProtocol.NextKeepsDrain | pkg/agent/agent.go:273-299 | no step of any thread lets a second assignment be accepted after the flag |
| AgentProtocol.NextFits | pkg/agent/agent.go:240-323 | no step queues an event that does not fit the assignment's stage |
| AgentProtocol.NextAnswers | pkg/agent/agent.go:273-299 | no step of any thread leaves an assignment unanswered |
| AgentProtocol.NextKeepsAwaited | pkg/agent/agent.go:302-304 | no step ends the wait while a counted assignment lacks its result |
| Assignments.AssignmentStore.UpdateTaskAssignmentStatus | pkg/database/repo/cluster.go:620-643 | the whole new row: status and result are overwritten, a start time is kept once set, the completion time is renewed on a terminal status, worker and retries stay; all other rows are left alone, unknown and deleted ids ignored; a failing statement changes nothing |
| TaskStream.HandleTaskEvent | pkg/cluster/grpc_server.go:306-342 | one write of the status that the payload stands for, with the result if it is one, at the time of the event; Completed exactly for success and cached; nothing for an unreadable assignment id or a missing payload |
| TaskStream.ServeTaskStream | pkg/cluster/grpc_server.go:236-304 | an unreadable first event or unregistered worker ends the stream without writes; otherwise the writes are those of all events in order, the first one included only if it names an assignment |
| TaskStream.WritesFollowEvents | pkg/cluster/grpc_server.go:306-342 | the writes for one assignment are its events translated one by one, in order |
| TaskStream.LastWriteWins | pkg/database/repo/cluster.go:620-643 | under status updates alone an existing row holds status and result of the last one for it that did not fail; its worker and retries are untouched |
| TaskStream.AllLand | pkg/cluster/grpc_server.go:313-341 | if no write for an assignment fails, the last one sent is the last one that landed |
| TaskStream.LastStatementWins | pkg/database/repo/cluster.go:620-677 | with other writers in between and until it is deleted, an assignment has the status that the last statement about it gave it, whoever sent it |
| TaskStream.DeletedStaysDeleted | pkg/database/repo/cluster.go:620-677 | no statement changes a row that was deleted along with its run |
| TaskStream.StatusesWrittenInAnyRun | pkg/cluster/grpc_server.go:287-341 | end to end: in any run of an agent, however dispatcher, reassigner and deletions are interleaved, the statuses the server sends to the database for an assignment because of its stream are a prefix of [Pending], [Running, Completed] or [Running, Failed], Completed only if an execution of that assignment succeeded or was cached and Failed only if one ended otherwise; the row holds the status of the last statement that did not fail, which is one of those if the stream sent it |
| Registry.ChannelsAreClosedAtMostOnce | pkg/cluster/registry.go:90-251 | over any interleaving of register, heartbeat, deregister and sweep, with ids reused, the channels of each connection are closed at most once, and are open while the map holds the connection |
| Registry.LeaksExactlyWhenReplaced | pkg/cluster/registry.go:125-127 | a connection that has left the map was closed exactly once, unless its id was registered again while the map held it; then and only then its channels stay open for good |
| Registry.ReplacedConnectionIsNeverClosed | pkg/cluster/registry.go:125-127 | a host that registers twice leaves its first connection out of the map, open, and nothing later closes it |
| Registry.DeregisterAfterSweepIsNoOpExactlyWhenNotBack | pkg/cluster/grpc_server.go:99-104 | after a sweep removed a worker, the stream's deferred deregistration changes nothing if and only if no registration of the id in between is still in place; otherwise it closes and forgets the newer connection |
| Registry.ReconnectIsTornDown | pkg/cluster/grpc_server.go:99-104 | a host that reconnects after a sweep has its new connection closed by the end of its old stream |
| Registry.HeartbeatHoldsForTheTimeout | pkg/cluster/registry.go:134-155 | a connected worker that reports at a time and is heard of no more stays in the map, under the same connection and with the load it reported, if and only if no later sweep comes more than the timeout after that time |
| Registry.ReportingWorkerStays | pkg/cluster/registry.go:226-242 | nothing but a registration or deregistration of the id takes a worker out of the map or replaces its connection while every sweep comes within the timeout of a time after which it was last seen, however often it reports |
| Registry.ConnectedWorker.Close | pkg/cluster/registry.go:162-163 | both channels are open before (closing twice would panic) and closed once after |
| Registry.WorkerRegistry.constructor | pkg/cluster/registry.go:71-87 | an empty registry; a non-positive heartbeat interval means 10 seconds, a non-positive timeout 30 |
| Registry.WorkerRegistry.RegisterWorker | pkg/cluster/registry.go:90-131 | a failed insert registers nothing; otherwise a new connection with load 0 and open channels takes the map's place for the id the insert returned, new or old |
| Registry.WorkerRegistry.RecordHeartbeat | pkg/cluster/registry.go:134-155 | sets load and last-seen of a connected worker to the values given and touches no other; reports an error for others and when the store fails, which undoes nothing |
| Registry.WorkerRegistry.DeregisterWorker | pkg/cluster/registry.go:158-175 | closes and forgets a connected worker; changes nothing at all for one that is not connected |
| Registry.WorkerRegistry.DetectStaleWorkers | pkg/cluster/registry.go:226-242 | returns exactly the workers last seen before now minus the timeout, each once, having closed and removed exactly those |
| RoundRobin.RoundRobinRouter.SelectWorker | pkg/cluster/router.go:22-29 | fails without workers and then leaves the counter; otherwise picks at the counter's old value modulo the length, with 64-bit wrap-around |
| RoundRobin.RoundRobinRouter.SelectMany | pkg/cluster/router.go:22-29 | consecutive selections pick at consecutive counter values, across a wrap as well, and are fair to the workers |
| RoundRobin.PicksAreFair | pkg/cluster/router.go:17-29 | in m consecutive selections over n different workers, from any counter value without a wrap, each worker is picked floor(m/n) or ceil(m/n) times |
| RoundRobin.FairWithoutWrap | pkg/cluster/router.go:26-27 | the same about the positions that consecutive counter values select |
| RoundRobin.FairAcrossWrapExactlyForDivisors | pkg/cluster/router.go:26-27 | every window, wrapping or not, is fair if and only if n divides 2^64 |
| RoundRobin.UnfairAtWrap | pkg/cluster/router.go:26-27 | otherwise the window of n selections starting just before the wrap picks one worker twice |
| Routing.MatchLabels | pkg/cluster/registry.go:258-265 | true exactly when every required label has its value, a missing label counting only for a required empty string |
| Routing.LeastLoaded | pkg/cluster/router.go:34-48 | fails without workers; otherwise yields the first worker of least load, or none when all loads are MaxInt32 |
| Routing.LeastLoadedIsUnique | pkg/cluster/router.go:39-47 | that description leaves one possible answer |
| Routing.LeastLoadedIsSome | pkg/cluster/router.go:40-47 | the scan yields no worker if and only if every load is MaxInt32 |
| Routing.KeepMatching | pkg/cluster/router.go:71-76 | keeps exactly the matching workers, in order |
| Routing.FilterKeepsOrder | pkg/cluster/router.go:71-76 | a worker that passes the filter stands behind exactly those that passed among the workers before it |
| Routing.LabelAffinity | pkg/cluster/router.go:60-83 | without labels the least loaded worker of all; with labels the least loaded matching one, or the error that none matches |
| Dispatch.Dispatcher.FromListing | pkg/cluster/dispatcher.go:121-132 | exactly the listed workers that are online, connected and matching, in the order of the listing |
| Dispatch.CandidatesKeepOrder | pkg/cluster/dispatcher.go:121-132 | such a worker stands behind exactly those that come from the listing before it |
| Dispatch.Dispatcher.constructor | pkg/cluster/router.go:86-95 | the names round-robin and label-affinity select those strategies, every other name least-loaded |
| Dispatch.Dispatcher.ListOnline | pkg/cluster/registry.go:178-187 | exactly the connected workers |
| Dispatch.Dispatcher.FindAvailable | pkg/cluster/dispatcher.go:94-181 | the target cluster's online workers if one is named; else the default cluster's unless the task prefers local workers; else every connected worker; always only those that match; which error arises when |
| Dispatch.Dispatcher.KeepFree | pkg/cluster/dispatcher.go:183-189 | exactly the workers below their own capacity |
| Dispatch.Dispatcher.Select | pkg/cluster/dispatcher.go:203-213 | on free, matching workers no strategy fails or yields no worker: round-robin yields the one at the counter's value modulo their number and advances the counter, both load-based strategies yield the first least loaded one and leave the counter |
| Dispatch.Dispatcher.Execute | pkg/cluster/dispatcher.go:86-213 | the workers to choose from are exactly those that are connected, match the labels, have free capacity and are online in the named cluster, or in the default cluster without a name, or anywhere with PreferLocal and no name; it succeeds if and only if there is one; round-robin picks by its counter, the other strategies a least loaded one; which error arises when, and the router's own errors never surface |
| Dispatch.AffinityRefinesToLeastLoaded | pkg/cluster/router.go:60-94 | on a list that passed the label filter, label affinity and least-loaded have the same answers and "no workers match" cannot arise |
| Assignments.OrphansAreListedOnce | pkg/database/repo/cluster.go:645-667 | the listing has every assigned or running row of an offline worker exactly once |
| Assignments.AssignmentStore.CreateTaskAssignment | pkg/cluster/dispatcher.go:63-73 | one new row at the end: assigned to the worker at that time, no result, no retries spent, limit 2 when not positive |
| Assignments.AssignmentStore.IncrementAssignmentRetry | pkg/database/repo/cluster.go:670-677 | the whole new row: one more retry, pending, no worker, no assignment or start time; fails and changes nothing, and finds no unknown or deleted row |
| Reassigner.ReassignOrphaned | pkg/cluster/reassigner.go:42-73 | a failed listing changes nothing; otherwise the listed orphans are treated in order, when nothing else writes in between |
| Reassigner.TickTreatsEveryOrphan | pkg/cluster/reassigner.go:49-72 | such a tick makes every orphan with retries left pending without a worker and with one more retry, fails every other orphan without a result, leaves no orphan waiting and touches nothing else, except where an update fails |
| Reassigner.RequeuesAreBounded | pkg/cluster/reassigner.go:42-73 | in any run of n reassigners, with other writers between each listing and its rows' updates and with runs deleted, an assignment is re-queued exactly as often as its retry count says and at most n - 1 times more than its limit: never more than the limit when there is one |
| Reassigner.OvershootIsReached | pkg/database/repo/cluster.go:670-677 | for every n and every limit some run re-queues an assignment exactly n - 1 times more than its limit |
| Reassigner.RequeueTakesOneRetry | pkg/cluster/reassigner.go:60-64 | every re-queue takes one from the total remaining retries, creating an assignment adds its limit, no other step changes the total |
| Reassigner.AllRequeuesAreBounded | pkg/cluster/reassigner.go:42-73 | in any run the re-queues over all assignments, deleted ones included, are exactly the retries spent, no more than granted with one reassigner and at most n - 1 more for each assignment with n |
| Reassigner.LateResultIsOverwritten | pkg/cluster/reassigner.go:60-64 | a run in which a result that arrives between the listing and the update is overwritten and the finished assignment is queued again |
| MigrationFiles.LoadMigrations | pkg/database/database.go:319-378 | succeeds exactly when the files are loadable, and then lists each once in strictly increasing version order; the error names the first file that conflicts with an earlier one or cannot be read |
| MigrationFiles.LoadableMeans | pkg/database/database.go:319-372 | loadable means that every up file of every source is readable and that no two of them, in one source or in different ones, claim the same version |
| MigrationFiles.PlanHoldsTheFiles | pkg/database/database.go:352-378 | the list holds exactly the migrations of the up files of all sources |
| MigrationFiles.PlanIsUnique | pkg/database/database.go:373-375 | a file set has one such list, whatever the sort does |
| Migrations.DB.Migrate | pkg/database/database.go:148-216 | the new tables and the committed SQL for every place where creating the table, reading it, loading the files or a transaction may fail |
| Migrations.DB.MigrateDown | pkg/database/database.go:219-263 | the state and answer of a rollback of the greatest recorded version for every place where it may fail; DownTakesBackTheLast says what they are |
| Migrations.DB.MigrationStatus | pkg/database/database.go:266-305 | one line per migration of the plan, with the recorded name and time exactly if its row was read |
| Migrations.ApplyOneMoves | pkg/database/database.go:190-210 | a transaction for the next migration records it and runs its SQL together, or neither; for a recorded one it always fails without effect |
| Migrations.MigrateSucceedsExactlyWhen | pkg/database/database.go:148-216 | from any state with a prefix of the plan recorded, Migrate reports success if and only if table, rows and files can be read, no recorded version is missing from what was read, and the transaction of every migration not yet recorded goes through; which error otherwise |
| Migrations.MigrateGoesToItsFirstStop | pkg/database/database.go:180-213 | it applies the plan in order up to the first migration that was recorded but not read or whose transaction fails, names that version, and has recorded each migration it applied with its name and time, all earlier rows unchanged |
| Migrations.DownTakesBackTheLast | pkg/database/database.go:219-263 | a rollback whose transaction takes effect runs the down SQL of the last recorded migration and deletes exactly its row; it reports success if and only if nothing failed, or nothing is recorded; the error and the unchanged state in every other case |
| Migrations.EveryRunRecordsAPrefix | pkg/database/database.go:148-263 | after any sequence of Migrate and MigrateDown calls, failing anywhere, the recorded versions are a prefix of the plan and the committed SQL leads exactly there |
| Migrations.RecordedRanExactlyOnce | pkg/database/database.go:190-257 | in any run each recorded SQL has run exactly once since its last rollback and each unrecorded one not at all |
| Migrations.MigrateAfterSuccessDoesNothing | pkg/database/database.go:148-216 | after a Migrate that reports success every migration is recorded, and another Migrate changes nothing |
| Migrations.SchemaMatchesRecords | pkg/database/database.go:148-263 | if each down SQL undoes its up SQL, the schema after any run is the one built by the recorded migrations in order |
| Migrations.StatusSplitsThePlan | pkg/database/database.go:290-302 | after any run the status shows a first part of the plan with times and the rest pending, under the plan's names |
| LocalRuns.RunStore.GetOrCreateLogFD | pkg/client/runstore.go:411-431 | opens a log once, making its directory and file only if there are none; what a failure leaves |
| LocalRuns.RunStore.AppendLog | pkg/client/runstore.go:154-177 | adds exactly the entry's encoding and a newline; which error arises when, and what each failure leaves in the file |
| LocalRuns.RunStore.AppendLogs | pkg/client/runstore.go:180-209 | adds the lines of the batch in order in one write; one entry that does not encode keeps the whole batch out; an empty batch does nothing |
| LocalRuns.RunStore.ReadLogs | pkg/client/runstore.go:212-246 | reads line by line, skips lines that do not decode, fails on a line that does not fit the buffer and on a read that fails anywhere, and finds no entries without a file |
| LocalRuns.RunStore.CloseLogs | pkg/client/runstore.go:260-265 | gives up the descriptor, even if closing it fails, and keeps everything else |
| RunLogs.ReadsBackExactlyWhen | pkg/client/runstore.go:227-245 | a file of encoded entries reads back as those entries if and only if every encoding is shorter than 10 MiB and none ends in a carriage return |
| RunLogs.CarriageReturnLosesAnEntry | pkg/client/runstore.go:232-239 | an encoder that keeps to all other conditions and still loses an entry |
| RunLogs.TruncatedLogReadsAsPrefix | pkg/client/runstore.go:232-245 | cut after any byte, the file reads as a prefix of the entries: exactly those whose encodings lie whole before the cut |
| RunLogs.FailedWriteAddsAPrefix | pkg/client/runstore.go:204-206 | a batch write that fails part-way adds a first part of its entries and costs none of the earlier ones |
| TornLogs.AppendsReadBackInOrder | pkg/client/runstore.go:154-246 | after any mix of single and batched appends, closings and deletions of any logs in which no write is torn, each log reads back as its own encodable entries in append order, under the same exact condition |
| TornLogs.FilesHoldTheHistory | pkg/client/runstore.go:154-209 | after any such mix, torn writes included, the file holds the whole lines and torn parts of the writes that reached it, in order |
| TornLogs.MixedCallsReadBack | pkg/client/runstore.go:154-246 | what a log reads back after any mix with failing opens, encodings and writes: the entries whose lines are intact, losing each line that begins with torn parts, and an error exactly if some line, joined ones included, does not fit the buffer |
| TornLogs.BracesKeepTheLaws | pkg/client/runstore.go:165-173 | the laws asked of the encoder, the one about joined lines included, can be kept together |
| TornLogs.LastLineYieldsItsEntry | pkg/client/runstore.go:232-239 | an unfinished last line yields its entry exactly if only its newline is missing |
| TornLogs.AppendAfterTornWriteIsLost | pkg/client/runstore.go:171-174 | after a torn write the next entry appended is lost although its own write succeeded |
| LocalRuns.RunStore.WriteMetadata | pkg/client/runstore.go:395-407 | stores a run's metadata in its own directory; a failing write may leave metadata that cannot be read |
| LocalRuns.RunStore.CreateRun | pkg/client/runstore.go:87-99 | makes the directory and stores the metadata; what each failure leaves |
| LocalRuns.RunStore.UpdateRun | pkg/client/runstore.go:102-112 | replaces the metadata of an existing run only |
| LocalRuns.RunStore.DeleteRun | pkg/client/runstore.go:137-150 | closes the run's log and removes its directory; a failing delete leaves it, with or without its metadata and log |
| LocalRuns.RunStore.ListRuns | pkg/client/runstore.go:268-313 | the metadata of every directory that has any, newest first, for any order of directory entries and whatever ids the metadata carries |
| LocalRuns.RunStore.CleanOldRuns | pkg/client/runstore.go:348-367 | deletes the listed runs started before the cutoff and counts those whose delete worked |
| LocalRuns.RunStore.CleanExcessRuns | pkg/client/runstore.go:371-391 | deletes the listed runs past the first keepCount and counts those whose delete worked; a negative count deletes nothing and panics |
| Retention.ListingListsEach | pkg/client/runstore.go:281-310 | if every metadata file names its own directory, as every write of the store keeps, the listing has each run exactly once |
| Retention.ExcessLeavesTheNewest | pkg/client/runstore.go:377-390 | without failing deletes exactly the min(keepCount, total) newest runs stay listed, nothing else is touched, and the number removed is returned |
| Retention.AgeLeavesTheYoung | pkg/client/runstore.go:357-366 | without failing deletes exactly the runs not older than the cutoff stay listed, and the number removed is returned |
| Retention.NewestAreSafe | pkg/client/runstore.go:381-388 | whatever deletes fail, none of the keepCount newest runs is touched |
| Retention.DeletesLeave | pkg/client/runstore.go:357-388 | what any deletes, failing or not, leave of each directory, and that the number returned is that of the deletes that worked |
| Retention.CleaningsCommute | pkg/client/runstore.go:346-391 | in either order the two cleanings delete equally many runs and leave runs with the same start times; with distinct start times they leave the same runs |
| Retention.ForeignMetadataMisleads | pkg/client/runstore.go:383-387 | a directory whose metadata names another run stays although a deletion is counted |
| TokenService.JWTService.GenerateTokenPair | pkg/authz/jwt.go:70-117 | signs both tokens before it stores anything, then creates the access row and the refresh row; the first stays if the second fails |
| TokenService.JWTService.ValidateRefreshToken | pkg/authz/jwt.go:163-183 | accepts exactly signed refresh tokens whose row is neither revoked nor expired; which error otherwise |
| TokenService.JWTService.RefreshTokens | pkg/authz/jwt.go:210-223 | the new rows and the reply of a call with nothing in between, for every place where the store may fail |
| TokenService.RotationSpendsTheToken | pkg/authz/jwt.go:210-223 | a token that passes the checks is spent for good unless its revocation fails; the exact rows after a failure at each place, and the reply: success exactly if the token passes and nothing fails; a failed check changes nothing; no other row changes |
| RefreshChain.StatementsOfRefresh | pkg/authz/jwt.go:210-223 | the server's separate statements, run one after the other, have exactly the effect of RefreshTokens, and the reply tells the expiry of the new access token |
| RefreshChain.EveryRunHolds | pkg/client/client.go:1252-1357 | the inductive invariant of all runs of concurrent requests against a server that works statement by statement: the lock is exclusive, only the newest call is awaited, rows are revoked exactly by the calls that spent them, and every refresh token that reached the client is spent except its current or incoming one |
| TokenChain.TokensAreSpentOnce | pkg/client/client.go:1315-1357 | under the lock two refresh calls overlap only if the client gave up on the earlier one, and two calls spend the same token only if the client gave up on the earlier one before it had spent it |
| DoubleSpending.GivingUpEarlyCanSpendTwice | pkg/authz/jwt.go:210-223 | that exception is exact: from every reachable state in which a thread waits for a call that has not spent its token, and at any time at which the token is still usable, giving up can lead to both this call and the next spending it |
| TokenChain.ChainIsIntactExactlyWhenNothingWasLost | pkg/client/client.go:1315-1357 | whenever the lock is free the client's token is the one unrevoked token of its chain if and only if no call has spent that token and every token the server made has arrived, calls the client gave up on included |
| TokenChain.CompleteRefreshesKeepTheChain | pkg/client/client.go:1252-1357 | if no call is given up and every call that spends its token succeeds, the chain of refresh tokens is intact whenever the lock is free and each token is spent at most once |
| RefreshClient.EveryRunKeepsClient | pkg/client/client.go:1315-1347 | in every run the client holds both tokens and the expiry of the last call that succeeded and whose reply arrived, or of the login; while a thread writes them down, exactly those written so far are new; each call presented the refresh token held when it was sent, and was sent when the access token held then had at most a minute left |
| RefreshClient.ClientHoldsTheLastPair | pkg/client/client.go:1344-1346 | so whenever the lock is free the client's access token, refresh token and expiry are those of one and the same reply, the last to arrive |
| RefreshClient.RefreshesExactlyWhenDue | pkg/client/credentials.go:24-27 | a thread that has the lock sends a refresh call if and only if the access token expires within a minute |
| RefreshClient.ExpiryIsTheRows | pkg/authz/jwt.go:88-117 | whenever the lock is free, the expiry the client goes by is the one in the server's row of the access token it holds |
| RefreshClient.FinishedThreadsAsked | pkg/client/client.go:1252-1276 | a finished thread has asked once, even if its refresh failed, or was refused and then asked exactly once more if it could make sure of its token again, and not at all if it could not |
| RefreshClient.RequestsCarryHeldTokens | pkg/client/client.go:1299-1302 | no request carries an access token other than the login's and those that replies have brought |
| DeviceCodes.DeviceCodeService.RequestDeviceCode | pkg/authz/device.go:81-113 | inserts a pending row with its expiry, or fails; no existing row is overwritten |
| DeviceCodes.DeviceCodeService.Authorize | pkg/authz/device.go:165-192 | succeeds exactly on a pending code that neither clock finds expired, and then writes the user and the time to that row only; which error otherwise |
| DeviceCodes.DeviceCodeService.Poll | pkg/authz/device.go:196-207 | which of not found, expired, pending and the written user is the answer, by the row and the clock |
| DeviceCodes.DeviceCodeService.Consume | pkg/authz/device.go:211-225 | removes an authorized code and succeeds exactly then, expired or not |
| DeviceCodes.DeviceCodeService.Deny | pkg/authz/device.go:240-255 | removes a pending code and succeeds exactly then |
| DeviceCodes.DeviceCodeService.Cleanup | pkg/authz/device.go:228-237 | removes exactly the expired codes, leaves the other rows as they are, and returns how many it removed |
| DeviceCodes.StepsOfAuthorize | pkg/authz/device.go:165-192 | the read and update steps used for interleavings have, with nothing in between, exactly the effect of Authorize |
| DeviceCodes.EveryCodeHasAStory | pkg/authz/device.go:165-255 | in any interleaving, with the read and the update of Authorize apart, what succeeds for a code is nothing, one denial, or one authorization, then polls told that user, then perhaps one consumption, in step with its row |
| DeviceCodes.AtMostOncePerCode | pkg/authz/device.go:165-255 | at most one Authorize and one Consume succeed per code, Consume only after Authorize and never with a Deny, and Poll names only the user that Authorize wrote |

## Left out

- gRPC, TLS, HTTP, SQL text, file-system calls and process execution: abstract steps and failure parameters.
- JSON and JWT encodings: a log encoder with stated laws, and a presented token classified as garbled, out of date or signed.
- `pkg/cluster/dispatcher.go` after selection: the send to the worker's channel, which may meet a closed channel because it does not hold the registry lock; the status writes around `waitForResult`, which make terminal statuses not absorbing; and `DryRun`, which skips the capacity filter.
- Dispatch.Dispatcher.Execute: does not model heartbeats changing loads during the call; the workers are a snapshot.
- Registry.WorkerRegistry.RegisterWorker: does not model the labels' JSON or the database's copy of the worker; likewise the other registry methods leave out the status written to the database.
- Migrations.DB.MigrateDown: takes as given whether down SQL is found; `extractUpSQL`, `extractDownSQL` and the file-name prefix lookup are not part of this model.
- ShutdownWait.WaitCanEndExactlyWhenNotHopeless: takes the return from the wait group's wait as one step; Go panics if the receive loop's next Add comes between the waiter's release and its waking.
- RoundRobin.RoundRobinRouter.SelectMany: stands for repeated calls; the code has no such loop.
- RefreshChain.EveryRunHolds: does not model logout, revocation by an administrator or the clean-up of expired rows, which end a chain from outside.
- TornLogs.MixedCallsReadBack: supposes, beyond the other laws of the encoder, that parts of encodings run together on one line do not decode.
- A statement that fails is taken to have had no effect, except the commit of a migration and writes to files.
- Wall-clock behaviour: tickers, deadlines and keepalives are steps that may happen at any time.
- Assignment ids are positions in the stream of one agent; reconnecting with a new stream is a new run.
- The handlers around the services (`pkg/server`, `pkg/api`), secrets, licensing, SCIM, AI policy, version comparison and the user interfaces: mostly single-branch facts or wiring.
