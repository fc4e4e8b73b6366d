/** The task_assignments table.  An assignment is named by its position in the table; a row
    that was deleted along with its run keeps its position, but no statement finds it. */
module Assignments {
  import opened Ids
  import opened TaskEvents
  import opened Wrappers

  /** The JSON result is represented by the execution status it reports. */
  datatype Row = Row(
    status: Status,
    worker: Option<WorkerId>,
    assignedAt: Option<Time>,
    startedAt: Option<Time>,
    completedAt: Option<Time>,
    result: Option<ExecStatus>,
    retryCount: nat,
    maxRetries: nat,
    deleted: bool)

  type Table = seq<Row>

  /** An executor created with a non-positive limit allows two retries. */
  function RetryLimit(maxRetries: int): nat {
    if maxRetries <= 0 then 2 else maxRetries
  }

  function NewRow(worker: WorkerId, maxRetries: int, at: Time): Row {
    Row(Assigned, Some(worker), Some(at), None, None, None, 0, RetryLimit(maxRetries), false)
  }

  /** Status and result are overwritten, a missing result included; the start time is kept
      once set, the completion time is renewed by every terminal status. */
  function SetStatus(row: Row, status: Status, result: Option<ExecStatus>, at: Time): Row {
    row.(status := status,
         result := result,
         completedAt := if status == CompletedStatus || status == FailedStatus then Some(at) else row.completedAt,
         startedAt := if status == Running && row.startedAt.None? then Some(at) else row.startedAt)
  }

  function Requeue(row: Row): Row {
    row.(retryCount := row.retryCount + 1, status := Pending, worker := None, assignedAt := None, startedAt := None)
  }

  /** A status update that was sent to the database, and whether it failed there. */
  datatype Write = Write(id: AssignmentId, status: Status, result: Option<ExecStatus>, at: Time, fails: bool)

  /** A statement about `id` affects a row. */
  predicate Finds(t: Table, id: AssignmentId) {
    id < |t| && !t[id].deleted
  }

  function Apply(t: Table, w: Write): Table {
    if w.fails || !Finds(t, w.id) then t else t[w.id := SetStatus(t[w.id], w.status, w.result, w.at)]
  }

  function Increment(t: Table, id: AssignmentId): Table {
    if !Finds(t, id) then t else t[id := Requeue(t[id])]
  }

  function DeleteRow(t: Table, id: AssignmentId): Table {
    if !Finds(t, id) then t else t[id := t[id].(deleted := true)]
  }

  /** A deleted row is found no more; other rows stay. */
  lemma DeletionHidesOneRow(t: Table, id: AssignmentId, other: AssignmentId)
    requires other < |t|
    ensures var t' := DeleteRow(t, id);
      && |t'| == |t| && !Finds(t', id)
      && (other != id ==> t'[other] == t[other])
  {
  }

  // ----- orphans

  predicate IsOrphan(row: Row, offline: set<WorkerId>) {
    && !row.deleted
    && (row.status == Assigned || row.status == Running)
    && row.worker.Some? && row.worker.value in offline
  }

  /** The orphans at the moment of the listing, each once. */
  function Orphans(t: Table, offline: set<WorkerId>): seq<AssignmentId> {
    if t == [] then []
    else
      var n := |t| - 1;
      Orphans(t[..n], offline) + if IsOrphan(t[n], offline) then [n] else []
  }

  lemma {:induction false} OrphansAreListedOnce(t: Table, offline: set<WorkerId>)
    ensures forall i, j :: 0 <= i < j < |Orphans(t, offline)| ==> Orphans(t, offline)[i] < Orphans(t, offline)[j]
    ensures forall id: nat :: id in Orphans(t, offline) <==> id < |t| && IsOrphan(t[id], offline)
    ensures forall id: nat :: id in Orphans(t, offline) <==>
              && id < |t| && !t[id].deleted && (t[id].status == Assigned || t[id].status == Running)
              && t[id].worker.Some? && t[id].worker.value in offline
    decreases |t|
  {
    if t == [] {
    } else {
      var n := |t| - 1;
      OrphansAreListedOnce(t[..n], offline);
      var rest := Orphans(t[..n], offline);
      assert Orphans(t, offline) == rest + if IsOrphan(t[n], offline) then [n] else [];
      assert forall id: nat :: id in rest ==> id < n && t[..n][id] == t[id];
      assert forall i :: 0 <= i < |rest| ==> rest[i] in rest;
    }
  }

  class AssignmentStore {
    var rows: Table
    ghost var writes: seq<Write>   // the status updates sent so far

    constructor ()
      ensures rows == [] && writes == []
    {
      rows, writes := [], [];
    }

    method CreateTaskAssignment(worker: WorkerId, maxRetries: int, at: Time, fails: bool) returns (ok: bool)
      modifies this
      ensures ok <==> !fails
      ensures fails ==> rows == old(rows)
      ensures ok ==> rows == old(rows) + [Row(Assigned, Some(worker), Some(at), None, None, None, 0,
                                              if maxRetries <= 0 then 2 else maxRetries, false)]
      ensures writes == old(writes)
    {
      if !fails {
        rows := rows + [NewRow(worker, maxRetries, at)];
      }
      ok := !fails;
    }

    /** An unconditional overwrite of an existing row; unknown ids are ignored. */
    method UpdateTaskAssignmentStatus(id: AssignmentId, status: Status, result: Option<ExecStatus>, at: Time, fails: bool)
      returns (ok: bool)
      modifies this
      ensures ok <==> !fails
      ensures writes == old(writes) + [Write(id, status, result, at, fails)]
      ensures rows == Apply(old(rows), Write(id, status, result, at, fails))
      ensures fails || id >= |old(rows)| || old(rows)[id].deleted ==> rows == old(rows)
      ensures !(fails || id >= |old(rows)| || old(rows)[id].deleted) ==>
        var was := old(rows)[id];
        rows == old(rows)[id := Row(status, was.worker, was.assignedAt,
                                    if was.startedAt.None? && status == Running then Some(at) else was.startedAt,
                                    if status == CompletedStatus || status == FailedStatus then Some(at) else was.completedAt,
                                    result, was.retryCount, was.maxRetries, false)]
    {
      writes := writes + [Write(id, status, result, at, fails)];
      if !fails && Finds(rows, id) {
        rows := rows[id := SetStatus(rows[id], status, result, at)];
      }
      ok := !fails;
    }

    method IncrementAssignmentRetry(id: AssignmentId, fails: bool) returns (ok: bool)
      modifies this
      ensures ok <==> !fails
      ensures rows == if fails then old(rows) else Increment(old(rows), id)
      ensures fails || id >= |old(rows)| || old(rows)[id].deleted ==> rows == old(rows)
      ensures !(fails || id >= |old(rows)| || old(rows)[id].deleted) ==>
        var was := old(rows)[id];
        rows == old(rows)[id := Row(Pending, None, None, None, was.completedAt, was.result, was.retryCount + 1, was.maxRetries, false)]
      ensures writes == old(writes)
    {
      if !fails && Finds(rows, id) {
        rows := rows[id := Requeue(rows[id])];
      }
      ok := !fails;
    }

    method ListOrphanedAssignments(offline: set<WorkerId>) returns (ids: seq<AssignmentId>)
      ensures ids == Orphans(rows, offline)
    {
      ids := [];
      for i := 0 to |rows|
        invariant ids == Orphans(rows[..i], offline)
      {
        assert rows[..i + 1][..i] == rows[..i];
        if IsOrphan(rows[i], offline) {
          ids := ids + [i];
        }
      }
      assert rows[..|rows|] == rows;
    }
  }
}
