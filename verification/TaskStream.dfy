/** The server's end of a worker's task stream: which status writes the events cause. */
module TaskStream {
  import AgentProtocol
  import AgentResults
  import opened Assignments
  import opened Ids
  import opened TaskEvents
  import opened Wrappers

  /** The assignment field of an event: absent, not a UUID, or an assignment. */
  datatype AssignmentField = Blank | NotAnId | Id(id: AssignmentId)

  datatype Incoming = Incoming(worker: WorkerId, assignment: AssignmentField, payload: Option<Payload>)

  /** An event with the time at which it is handled and whether the database then fails. */
  datatype Arrival = Arrival(event: Incoming, at: Time, dbFails: bool)

  datatype StreamError = ReceiveFailed | WorkerNotRegistered

  function ResultOf(p: Payload): Option<ExecStatus> {
    if p.Result? then Some(p.status) else None
  }

  /** The writes one event asks for: none without a readable id and a payload. */
  function WritesOf(a: Arrival): seq<Write> {
    var e := a.event;
    if e.assignment.Id? && e.payload.Some? then
      [Write(e.assignment.id, StatusOf(e.payload.value), ResultOf(e.payload.value), a.at, a.dbFails)]
    else []
  }

  function AllWrites(log: seq<Arrival>): seq<Write> {
    if log == [] then [] else AllWrites(log[..|log| - 1]) + WritesOf(log[|log| - 1])
  }

  /** The rows after a sequence of writes. */
  function Rows(t: Table, writes: seq<Write>): Table {
    if writes == [] then t else Apply(Rows(t, writes[..|writes| - 1]), writes[|writes| - 1])
  }

  method HandleTaskEvent(store: AssignmentStore, a: Arrival)
    modifies store
    ensures store.writes == old(store.writes) + WritesOf(a)
    ensures store.rows == Rows(old(store.rows), WritesOf(a))
    ensures !a.event.assignment.Id? || a.event.payload.None? ==> unchanged(store)
    ensures a.event.assignment.Id? && a.event.payload.Some? ==>
      exists w ::
        && store.writes == old(store.writes) + [w]
        && w.id == a.event.assignment.id && w.at == a.at && w.fails == a.dbFails
        && match a.event.payload.value
           case Accepted => w.status == Running && w.result == None
           case Rejected => w.status == Pending && w.result == None
           case Result(status) =>
             && w.result == Some(status)
             && w.status == if status in {Success, Cached} then CompletedStatus else FailedStatus
  {
    var e := a.event;
    if !e.assignment.Id? {
      return;
    }
    if e.payload.Some? {
      match e.payload.value
      case Accepted =>
        var _ := store.UpdateTaskAssignmentStatus(e.assignment.id, Running, None, a.at, a.dbFails);
      case Rejected =>
        var _ := store.UpdateTaskAssignmentStatus(e.assignment.id, Pending, None, a.at, a.dbFails);
      case Result(execStatus) =>
        var status := CompletedStatus;
        if execStatus != Success && execStatus != Cached {
          status := FailedStatus;
        }
        var _ := store.UpdateTaskAssignmentStatus(e.assignment.id, status, Some(execStatus), a.at, a.dbFails);
    }
  }

  /** `writes` and `rows` are where the events `seen` take `was` and `before`. */
  ghost predicate Follows(writes: seq<Write>, rows: Table, was: seq<Write>, before: Table, seen: seq<Arrival>) {
    writes == was + AllWrites(seen) && rows == Rows(before, AllWrites(seen))
  }

  /** The first event identifies the worker and is handled only if it names an assignment;
      `rest` are the events read until the stream ends. */
  method ServeTaskStream(store: AssignmentStore, connected: set<WorkerId>, first: Option<Arrival>, rest: seq<Arrival>)
    returns (r: Result<WorkerId, StreamError>)
    modifies store
    ensures r.Ok? <==> first.Some? && first.value.event.worker in connected
    ensures r.Ok? ==> r.value == first.value.event.worker
    ensures r.Ok? ==> Follows(store.writes, store.rows, old(store.writes), old(store.rows), [first.value] + rest)
    ensures r.Err? ==> unchanged(store) && r.error == if first.None? then ReceiveFailed else WorkerNotRegistered
  {
    hide *;
    if first.None? {
      return Err(ReceiveFailed);
    }
    if first.value.event.worker !in connected {
      return Err(WorkerNotRegistered);
    }
    FirstEvent(store.writes, store.rows, first.value);
    if !first.value.event.assignment.Blank? {
      HandleTaskEvent(store, first.value);
    }
    ghost var seen := [first.value];
    for i := 0 to |rest|
      invariant seen == [first.value] + rest[..i]
      invariant Follows(store.writes, store.rows, old(store.writes), old(store.rows), seen)
    {
      OneMore(store.writes, store.rows, old(store.writes), old(store.rows), seen, rest[i]);
      HandleTaskEvent(store, rest[i]);
      seen := seen + [rest[i]];
    }
    assert seen == [first.value] + rest;
    r := Ok(first.value.event.worker);
  }

  lemma {:induction false} FirstEvent(was: seq<Write>, rows: Table, a: Arrival)
    ensures Follows(was + WritesOf(a), Rows(rows, WritesOf(a)), was, rows, [a])
    ensures a.event.assignment.Blank? ==> Follows(was, rows, was, rows, [a])
  {
    AllWritesSnoc([], a);
    assert [] + [a] == [a];
    assert was + [] == was;
  }

  lemma OneMore(writes: seq<Write>, rows: Table, was: seq<Write>, before: Table, seen: seq<Arrival>, a: Arrival)
    requires Follows(writes, rows, was, before, seen)
    ensures Follows(writes + WritesOf(a), Rows(rows, WritesOf(a)), was, before, seen + [a])
  {
    AllWritesSnoc(seen, a);
    RowsConcat(before, AllWrites(seen), WritesOf(a));
  }

  lemma AllWritesSnoc(log: seq<Arrival>, a: Arrival)
    ensures AllWrites(log + [a]) == AllWrites(log) + WritesOf(a)
  {
    assert (log + [a])[..|log|] == log;
  }

  lemma RowsConcat(t: Table, a: seq<Write>, b: seq<Write>)
    requires |b| <= 1
    ensures Rows(t, a + b) == Rows(Rows(t, a), b)
  {
    if b == [] {
      assert a + b == a;
    } else {
      assert (a + b)[..|a|] == a && b[..0] == [];
    }
  }

  // ----- the statuses written for one assignment

  /** The statuses that were sent for an assignment, in order. */
  function WrittenFor(writes: seq<Write>, id: AssignmentId): seq<Status> {
    if writes == [] then []
    else
      var rest, w := WrittenFor(writes[..|writes| - 1], id), writes[|writes| - 1];
      if w.id == id then rest + [w.status] else rest
  }

  /** `log` is how the server receives an agent's events, after the identifying one. */
  predicate OnTheWire(worker: WorkerId, events: seq<Event>, log: seq<Arrival>) {
    && |log| == |events| + 1
    && log[0].event == Incoming(worker, Blank, None)
    && forall i :: 0 <= i < |events| ==> log[i + 1].event == Incoming(worker, Id(events[i].id), Some(events[i].payload))
  }

  /** The writes for an assignment are its events, translated one by one. */
  lemma {:induction false} WritesFollowEvents(worker: WorkerId, events: seq<Event>, log: seq<Arrival>, id: AssignmentId)
    requires OnTheWire(worker, events, log)
    ensures WrittenFor(AllWrites(log), id) == Statuses(About(events, id))
    decreases |events|
  {
    var n := |log| - 1;
    assert log == log[..n] + [log[n]];
    AllWritesSnoc(log[..n], log[n]);
    if events == [] {
      assert log[..n] == [];
    } else {
      var front, e := events[..|events| - 1], events[|events| - 1];
      assert OnTheWire(worker, front, log[..n]);
      WritesFollowEvents(worker, front, log[..n], id);
      var w := AllWrites(log[..n]);
      assert (w + WritesOf(log[n]))[..|w|] == w;
    }
  }

  /** The last write for an assignment that did not fail. */
  function LastLanded(writes: seq<Write>, id: AssignmentId): Option<Write> {
    if writes == [] then None
    else
      var w := writes[|writes| - 1];
      if w.id == id && !w.fails then Some(w) else LastLanded(writes[..|writes| - 1], id)
  }

  /** The row of an assignment holds the status and the result of the last write for it that
      did not fail; its worker and its retries are left alone. */
  lemma {:induction false} LastWriteWins(t: Table, writes: seq<Write>, id: AssignmentId)
    requires Finds(t, id)
    ensures |Rows(t, writes)| == |t|
    ensures var row, last := Rows(t, writes)[id], LastLanded(writes, id);
      && row.status == (if last.Some? then last.value.status else t[id].status)
      && row.result == (if last.Some? then last.value.result else t[id].result)
      && row == t[id].(status := row.status, result := row.result, startedAt := row.startedAt, completedAt := row.completedAt)
    decreases |writes|
  {
    if writes == [] {
    } else {
      LastWriteWins(t, writes[..|writes| - 1], id);
    }
  }

  lemma {:induction false} LandedWasWritten(writes: seq<Write>, id: AssignmentId)
    ensures LastLanded(writes, id).Some? ==> LastLanded(writes, id).value.status in WrittenFor(writes, id)
    decreases |writes|
  {
    if writes == [] {
    } else {
      LandedWasWritten(writes[..|writes| - 1], id);
    }
  }

  /** If no write for the assignment fails, the last one landed. */
  lemma {:induction false} AllLand(writes: seq<Write>, id: AssignmentId)
    requires forall i :: 0 <= i < |writes| && writes[i].id == id ==> !writes[i].fails
    ensures var statuses := WrittenFor(writes, id);
      if statuses == [] then LastLanded(writes, id) == None
      else LastLanded(writes, id).Some? && LastLanded(writes, id).value.status == statuses[|statuses| - 1]
    decreases |writes|
  {
    if writes == [] {
    } else {
      AllLand(writes[..|writes| - 1], id);
    }
  }

  // ----- among the other writers

  /** A statement on the table: a status update, by a stream or by the dispatcher or the
      reassigner, a retry increment, or the deletion of a run. */
  datatype Statement =
    | StatusUpdate(write: Write, fromStream: bool)
    | RetryIncrement(id: AssignmentId, fails: bool)
    | Deletion(id: AssignmentId)

  function After(t: Table, st: Statement): Table {
    match st
    case StatusUpdate(w, _) => Apply(t, w)
    case RetryIncrement(id, fails) => if fails then t else Increment(t, id)
    case Deletion(id) => DeleteRow(t, id)
  }

  function AfterAll(t: Table, sts: seq<Statement>): Table {
    if sts == [] then t else After(AfterAll(t, sts[..|sts| - 1]), sts[|sts| - 1])
  }

  /** The writes of the stream among the statements. */
  function StreamWrites(sts: seq<Statement>): seq<Write> {
    if sts == [] then []
    else
      var st := sts[|sts| - 1];
      StreamWrites(sts[..|sts| - 1]) + if st.StatusUpdate? && st.fromStream then [st.write] else []
  }

  /** The status that one statement gives an assignment, if it does. */
  function Sets(st: Statement, id: AssignmentId): Option<Status> {
    match st
    case StatusUpdate(w, _) => if w.id == id && !w.fails then Some(w.status) else None
    case RetryIncrement(id', fails) => if id' == id && !fails then Some(Pending) else None
    case Deletion(_) => None
  }

  /** The last statement that gives the assignment a status. */
  function LastSetting(sts: seq<Statement>, id: AssignmentId): (last: Option<Statement>)
    ensures last.Some? ==> Sets(last.value, id).Some?
  {
    if sts == [] then None
    else if Sets(sts[|sts| - 1], id).Some? then Some(sts[|sts| - 1])
    else LastSetting(sts[..|sts| - 1], id)
  }

  /** As long as its row is not deleted, an assignment has the status that the last statement
      about it gave it, whoever sent it. */
  lemma {:induction false} LastStatementWins(t: Table, sts: seq<Statement>, id: AssignmentId)
    requires Finds(AfterAll(t, sts), id) && id < |t|
    ensures Finds(t, id)
    ensures var last := LastSetting(sts, id);
      AfterAll(t, sts)[id].status == if last.Some? then Sets(last.value, id).value else t[id].status
    decreases |sts|
  {
    if sts == [] {
    } else {
      LastStatementWins(t, sts[..|sts| - 1], id);
    }
  }

  /** No statement changes a deleted row. */
  lemma {:induction false} DeletedStaysDeleted(t: Table, sts: seq<Statement>, id: AssignmentId)
    requires id < |t| && t[id].deleted
    ensures |AfterAll(t, sts)| == |t| && AfterAll(t, sts)[id] == t[id]
    decreases |sts|
  {
    if sts == [] {
    } else {
      DeletedStaysDeleted(t, sts[..|sts| - 1], id);
    }
  }

  lemma {:induction false} StreamSettingIsWritten(sts: seq<Statement>, id: AssignmentId)
    ensures var last := LastSetting(sts, id);
      last.Some? && last.value.StatusUpdate? && last.value.fromStream ==>
        Sets(last.value, id).value in WrittenFor(StreamWrites(sts), id)
    decreases |sts|
  {
    if sts == [] {
    } else {
      var front, st := sts[..|sts| - 1], sts[|sts| - 1];
      StreamSettingIsWritten(front, id);
      var w := StreamWrites(front);
      if st.StatusUpdate? && st.fromStream {
        assert StreamWrites(sts) == w + [st.write];
        assert (w + [st.write])[..|w|] == w;
      } else {
        assert StreamWrites(sts) == w + [] == w;
      }
    }
  }

  /** A status that one of the agent's results stands for was written because of an execution
      of that very assignment. */
  lemma {:induction false} WrittenStatusWasExecuted(maxConcurrent: int, steps: seq<AgentProtocol.Step>, id: AssignmentId)
    ensures var written := Statuses(About(AgentProtocol.Run(maxConcurrent, steps).handled, id));
      && (CompletedStatus in written ==>
            || AgentResults.Executed(maxConcurrent, steps, id, Success)
            || AgentResults.Executed(maxConcurrent, steps, id, Cached))
      && (FailedStatus in written ==>
            exists status | status !in {Success, Cached} :: AgentResults.Executed(maxConcurrent, steps, id, status))
  {
    hide AgentProtocol.Run, AgentResults.Executed, About;
    var s := AgentProtocol.Run(maxConcurrent, steps);
    AgentResults.EveryResultWasExecuted(maxConcurrent, steps);
    var payloads := About(s.handled, id);
    forall i | 0 <= i < |payloads| && payloads[i].Result?
      ensures AgentResults.Executed(maxConcurrent, steps, id, payloads[i].status)
    {
      AboutIsReported(s.handled, id, payloads[i]);
      assert Event(id, payloads[i]) in AgentProtocol.All(s);
    }
  }

  /** End to end: in any run of an agent, however the dispatcher, the reassigner and deletions
      of runs are interleaved, the statuses the server sends to the database for an assignment
      because of the agent's stream are a prefix of [Pending], [Running, Completed] or
      [Running, Failed], and Completed or Failed is the one that an execution of that
      assignment yielded.  As long as the row exists it holds the status of the last statement
      that did not fail; if the stream sent that one, it is one of those statuses. */
  lemma {:induction false} StatusesWrittenInAnyRun(worker: WorkerId, maxConcurrent: int, steps: seq<AgentProtocol.Step>,
                                                   log: seq<Arrival>, sts: seq<Statement>, id: AssignmentId, t: Table)
    requires OnTheWire(worker, AgentProtocol.Run(maxConcurrent, steps).handled, log)
    requires StreamWrites(sts) == AllWrites(log)
    ensures var written, last := WrittenFor(StreamWrites(sts), id), LastSetting(sts, id);
      && IsStatusHistory(written)
      && (CompletedStatus in written ==>
            || AgentResults.Executed(maxConcurrent, steps, id, Success)
            || AgentResults.Executed(maxConcurrent, steps, id, Cached))
      && (FailedStatus in written ==>
            exists status | status !in {Success, Cached} :: AgentResults.Executed(maxConcurrent, steps, id, status))
      && (id < |t| && Finds(AfterAll(t, sts), id) ==>
            AfterAll(t, sts)[id].status == if last.Some? then Sets(last.value, id).value else t[id].status)
      && (last.Some? && last.value.StatusUpdate? && last.value.fromStream ==> Sets(last.value, id).value in written)
  {
    hide *;
    var handled := AgentProtocol.Run(maxConcurrent, steps).handled;
    AgentProtocol.EventsOfOneAssignment(maxConcurrent, steps, id);
    WrittenStatusWasExecuted(maxConcurrent, steps, id);
    WritesFollowEvents(worker, handled, log, id);
    StreamSettingIsWritten(sts, id);
    if id < |t| && Finds(AfterAll(t, sts), id) {
      LastStatementWins(t, sts, id);
    }
  }
}
