/** Re-queuing the assignments of workers that went offline, with a bound on retries. */
module Reassigner {
  import opened Assignments
  import opened Ids
  import opened TaskEvents
  import opened Wrappers

  /** An orphan as the listing found it. */
  datatype Listed = Listed(id: AssignmentId, retryCount: nat, maxRetries: nat)

  function Listing(t: Table, offline: set<WorkerId>): (ls: seq<Listed>)
    ensures |ls| == |Orphans(t, offline)|
    ensures forall i :: 0 <= i < |ls| ==>
              var id := Orphans(t, offline)[i]; id < |t| && ls[i] == Listed(id, t[id].retryCount, t[id].maxRetries)
  {
    OrphansAreListedOnce(t, offline);
    var ids := Orphans(t, offline);
    assert forall i :: 0 <= i < |ids| ==> ids[i] in ids;
    seq(|ids|, i requires 0 <= i < |ids| => Listed(ids[i], t[ids[i]].retryCount, t[ids[i]].maxRetries))
  }

  predicate Exhausted(l: Listed) {
    l.retryCount >= l.maxRetries
  }

  /** The update that one listed orphan gets, whatever its row has become meanwhile. */
  function Treat(t: Table, l: Listed, at: Time, fails: bool): Table {
    if fails || !Finds(t, l.id) then t
    else if Exhausted(l) then t[l.id := SetStatus(t[l.id], FailedStatus, None, at)]
    else t[l.id := Requeue(t[l.id])]
  }

  function TreatAll(t: Table, ls: seq<Listed>, at: Time, failing: set<AssignmentId>): Table {
    if ls == [] then t
    else
      var n := |ls| - 1;
      Treat(TreatAll(t, ls[..n], at, failing), ls[n], at, ls[n].id in failing)
  }

  function Requeues(ls: seq<Listed>, failing: set<AssignmentId>): nat {
    if ls == [] then 0
    else
      var n := |ls| - 1;
      Requeues(ls[..n], failing) + if !Exhausted(ls[n]) && ls[n].id !in failing then 1 else 0
  }

  /** A tick with nothing else going on; the listing may fail, and so may any update. */
  method ReassignOrphaned(store: AssignmentStore, offline: set<WorkerId>, at: Time, listFails: bool, failing: set<AssignmentId>)
    returns (ghost requeued: nat)
    modifies store
    ensures store.rows ==
            if listFails then old(store.rows) else TreatAll(old(store.rows), Listing(old(store.rows), offline), at, failing)
    ensures requeued == if listFails then 0 else Requeues(Listing(old(store.rows), offline), failing)
  {
    requeued := 0;
    if listFails {
      return;
    }
    ghost var ls := Listing(store.rows, offline);
    var before := store.rows;
    var ids := store.ListOrphanedAssignments(offline);
    for i := 0 to |ids|
      invariant store.rows == TreatAll(before, ls[..i], at, failing)
      invariant requeued == Requeues(ls[..i], failing)
    {
      var a := Listed(ids[i], before[ids[i]].retryCount, before[ids[i]].maxRetries);
      assert a == ls[i] && ls[..i + 1][..i] == ls[..i];
      if a.retryCount >= a.maxRetries {
        var _ := store.UpdateTaskAssignmentStatus(a.id, FailedStatus, None, at, a.id in failing);
      } else {
        var ok := store.IncrementAssignmentRetry(a.id, a.id in failing);
        if ok {
          requeued := requeued + 1;
        }
      }
    }
    assert ls[..|ls|] == ls;
  }

  // ----- what a tick without interference does to each row

  /** The outcome for a row of a tick at whose start it was `row`. */
  function Outcome(row: Row, offline: set<WorkerId>, at: Time, fails: bool): Row {
    if !IsOrphan(row, offline) || fails then row
    else if row.retryCount >= row.maxRetries then SetStatus(row, FailedStatus, None, at)
    else Requeue(row)
  }

  lemma {:induction false} TreatAllAt(t: Table, offline: set<WorkerId>, at: Time, failing: set<AssignmentId>, n: nat, id: AssignmentId)
    requires n <= |Listing(t, offline)| && id < |t|
    ensures |TreatAll(t, Listing(t, offline)[..n], at, failing)| == |t|
    ensures TreatAll(t, Listing(t, offline)[..n], at, failing)[id] ==
            if id in Orphans(t, offline)[..n] then Outcome(t[id], offline, at, id in failing) else t[id]
    decreases n
  {
    var ls, ids := Listing(t, offline), Orphans(t, offline);
    OrphansAreListedOnce(t, offline);
    if n == 0 {
    } else {
      var last := ids[n - 1];
      assert last in ids && last !in ids[..n - 1] && ids[..n] == ids[..n - 1] + [last];
      assert ls[n - 1] == Listed(last, t[last].retryCount, t[last].maxRetries);
      assert ls[..n][..n - 1] == ls[..n - 1];
      TreatAllAt(t, offline, at, failing, n - 1, id);
      TreatAllAt(t, offline, at, failing, n - 1, last);
      hide Orphans, Listing, TreatAll, IsOrphan;
      TreatIsOutcome(TreatAll(t, ls[..n - 1], at, failing), t, last, offline, at, failing);
      assert TreatAll(t, ls[..n], at, failing) == Treat(TreatAll(t, ls[..n - 1], at, failing), ls[n - 1], at, last in failing) by {
        TreatAllSnoc(t, ls[..n], at, failing);
      }
    }
  }

  lemma TreatAllSnoc(t: Table, ls: seq<Listed>, at: Time, failing: set<AssignmentId>)
    requires ls != []
    ensures var n := |ls| - 1;
      TreatAll(t, ls, at, failing) == Treat(TreatAll(t, ls[..n], at, failing), ls[n], at, ls[n].id in failing)
  {
  }

  /** Treating an orphan whose row is as it was listed. */
  lemma TreatIsOutcome(now: Table, t: Table, id: AssignmentId, offline: set<WorkerId>, at: Time, failing: set<AssignmentId>)
    requires |now| == |t| && id < |t| && IsOrphan(t[id], offline) && now[id] == t[id]
    ensures Treat(now, Listed(id, t[id].retryCount, t[id].maxRetries), at, id in failing) ==
            now[id := Outcome(t[id], offline, at, id in failing)]
  {
  }

  /** A tick with nothing else going on re-queues every orphan that has retries left, fails
      every other orphan, and touches nothing else, except where an update fails. */
  lemma {:induction false} TickTreatsEveryOrphan(t: Table, offline: set<WorkerId>, at: Time, failing: set<AssignmentId>, id: AssignmentId)
    requires id < |t|
    ensures var t' := TreatAll(t, Listing(t, offline), at, failing);
      && |t'| == |t|
      && t'[id] == Outcome(t[id], offline, at, id in failing)
      && (IsOrphan(t[id], offline) && id !in failing ==> !IsOrphan(t'[id], offline))
      && (!IsOrphan(t[id], offline) || id in failing ==> t'[id] == t[id])
      && (IsOrphan(t[id], offline) && id !in failing && t[id].retryCount >= t[id].maxRetries ==>
            t'[id].status == FailedStatus && t'[id].result == None && t'[id].retryCount == t[id].retryCount)
      && (IsOrphan(t[id], offline) && id !in failing && t[id].retryCount < t[id].maxRetries ==>
            t'[id].status == Pending && t'[id].worker == None && t'[id].retryCount == t[id].retryCount + 1)
  {
    var ls := Listing(t, offline);
    TreatAllAt(t, offline, at, failing, |ls|, id);
    OrphansAreListedOnce(t, offline);
    assert ls[..|ls|] == ls && Orphans(t, offline)[..|ls|] == Orphans(t, offline);
    hide TreatAll, Orphans, Listing;
  }

  // ----- runs, with several reassigners and other writers between their statements

  /** `todos[r]` is the rest of the current tick's list of reassigner `r`; every replica of the
      server runs one. */
  datatype State = State(rows: Table, todos: seq<seq<Listed>>)

  function Init(n: nat): State {
    State([], seq(n, _ => []))
  }

  datatype Step =
    | ListNow(r: nat, offline: set<WorkerId>, fails: bool)  // begins a tick when `r` has none under way
    | TreatNext(r: nat, at: Time, fails: bool)              // `r` updates its next listed orphan
    | Create(worker: WorkerId, maxRetries: int, at: Time)
    | SetRow(id: AssignmentId, status: Status, result: Option<ExecStatus>, newWorker: Option<WorkerId>, at: Time)
    | Delete(id: AssignmentId)                              // along with its run

  function Next(s: State, l: Step): State {
    match l
    case ListNow(r, offline, fails) =>
      if r >= |s.todos| || s.todos[r] != [] || fails then s else s.(todos := s.todos[r := Listing(s.rows, offline)])
    case TreatNext(r, at, fails) =>
      if r >= |s.todos| || s.todos[r] == [] then s
      else State(Treat(s.rows, s.todos[r][0], at, fails), s.todos[r := s.todos[r][1..]])
    case Create(worker, maxRetries, at) =>
      s.(rows := s.rows + [NewRow(worker, maxRetries, at)])
    case SetRow(id, status, result, worker, at) =>
      if Finds(s.rows, id) then s.(rows := s.rows[id := SetStatus(s.rows[id], status, result, at).(worker := worker)]) else s
    case Delete(id) =>
      s.(rows := DeleteRow(s.rows, id))
  }

  function Run(n: nat, steps: seq<Step>): State {
    if steps == [] then Init(n) else Next(Run(n, steps[..|steps| - 1]), steps[|steps| - 1])
  }

  /** The step re-queues assignment `id`. */
  predicate IsRequeued(s: State, l: Step, id: AssignmentId) {
    && l.TreatNext? && !l.fails && l.r < |s.todos| && s.todos[l.r] != []
    && s.todos[l.r][0].id == id && !Exhausted(s.todos[l.r][0]) && Finds(s.rows, id)
  }

  function RequeuesOf(n: nat, steps: seq<Step>, id: AssignmentId): nat {
    if steps == [] then 0
    else
      var k := |steps| - 1;
      RequeuesOf(n, steps[..k], id) + if IsRequeued(Run(n, steps[..k]), steps[k], id) then 1 else 0
  }

  // ----- re-queues under way

  /** The list still has a re-queue of the assignment to do. */
  predicate HasOpen(todo: seq<Listed>, id: AssignmentId) {
    exists i :: 0 <= i < |todo| && todo[i].id == id && !Exhausted(todo[i])
  }

  /** How many reassigners have a re-queue of the assignment still to do. */
  function Underway(todos: seq<seq<Listed>>, id: AssignmentId): nat {
    if todos == [] then 0
    else
      var n := |todos| - 1;
      Underway(todos[..n], id) + if HasOpen(todos[n], id) then 1 else 0
  }

  lemma {:induction false} UnderwayAtMost(todos: seq<seq<Listed>>, id: AssignmentId)
    ensures Underway(todos, id) <= |todos|
    decreases |todos|
  {
    if todos == [] {
    } else {
      UnderwayAtMost(todos[..|todos| - 1], id);
    }
  }

  lemma {:induction false} UnderwayAtOne(todos: seq<seq<Listed>>, r: nat, todo: seq<Listed>, id: AssignmentId)
    requires r < |todos|
    ensures Underway(todos[r := todo], id) ==
            Underway(todos, id) - (if HasOpen(todos[r], id) then 1 else 0) + (if HasOpen(todo, id) then 1 else 0)
    decreases |todos|
  {
    hide HasOpen;
    var n := |todos| - 1;
    if r == n {
      assert todos[r := todo][..n] == todos[..n];
    } else {
      UnderwayAtOne(todos[..n], r, todo, id);
      assert todos[r := todo][..n] == todos[..n][r := todo];
    }
  }

  /** A reassigner without a re-queue of the assignment leaves room for one more. */
  lemma UnderwayElsewhere(todos: seq<seq<Listed>>, r: nat, id: AssignmentId)
    requires r < |todos| && !HasOpen(todos[r], id)
    ensures Underway(todos, id) < |todos|
  {
    var open := [Listed(id, 0, 1)];
    assert open[0].id == id && !Exhausted(open[0]);
    UnderwayAtOne(todos, r, open, id);
    UnderwayAtMost(todos[r := open], id);
  }

  /** A list has each assignment once, with the limit of its row and no more retries than it. */
  ghost predicate FitsRows(rows: Table, todo: seq<Listed>) {
    && (forall i :: 0 <= i < |todo| ==>
          && todo[i].id < |rows|
          && todo[i].retryCount <= rows[todo[i].id].retryCount
          && todo[i].maxRetries == rows[todo[i].id].maxRetries)
    && (forall i, j :: 0 <= i < j < |todo| ==> todo[i].id != todo[j].id)
  }

  /** Retries done and under way stay within the limit and one more for every reassigner but
      the first. */
  predicate WithinLimit(s: State, id: AssignmentId) {
    id < |s.rows| ==> s.rows[id].maxRetries > 0 && s.rows[id].retryCount + Underway(s.todos, id) < s.rows[id].maxRetries + |s.todos|
  }

  ghost predicate AllFit(s: State) {
    forall r :: 0 <= r < |s.todos| ==> FitsRows(s.rows, s.todos[r])
  }

  /** Rows only gain retries, and keep their limits. */
  ghost predicate RowsGrow(rows: Table, rows': Table) {
    && |rows| <= |rows'|
    && forall id :: 0 <= id < |rows| ==> rows[id].retryCount <= rows'[id].retryCount && rows[id].maxRetries == rows'[id].maxRetries
  }

  lemma NextGrows(s: State, l: Step)
    ensures RowsGrow(s.rows, Next(s, l).rows)
    ensures |Next(s, l).todos| == |s.todos|
  {
    hide Listing;
  }

  lemma GrowthKeepsFit(rows: Table, rows': Table, todo: seq<Listed>)
    requires FitsRows(rows, todo) && RowsGrow(rows, rows')
    ensures FitsRows(rows', todo)
    ensures todo != [] ==> FitsRows(rows', todo[1..])
  {
  }

  lemma ListingFits(rows: Table, offline: set<WorkerId>)
    ensures FitsRows(rows, Listing(rows, offline))
  {
    OrphansAreListedOnce(rows, offline);
    hide Orphans;
  }

  lemma NextFits(s: State, l: Step)
    requires AllFit(s)
    ensures AllFit(Next(s, l))
  {
    hide FitsRows, RowsGrow, Listing, Treat;
    NextGrows(s, l);
    forall r | 0 <= r < |s.todos|
      ensures FitsRows(Next(s, l).rows, Next(s, l).todos[r])
    {
      GrowthKeepsFit(s.rows, Next(s, l).rows, s.todos[r]);
      if l.ListNow? {
        ListingFits(s.rows, l.offline);
      }
    }
  }

  /** What is open for an assignment in a new list. */
  lemma ListingOpens(rows: Table, offline: set<WorkerId>, id: AssignmentId)
    ensures HasOpen(Listing(rows, offline), id) ==> id < |rows| && rows[id].retryCount < rows[id].maxRetries
  {
    OrphansAreListedOnce(rows, offline);
    hide Orphans;
  }

  /** Taking the first entry off a list closes exactly its re-queue. */
  lemma HeadCloses(rows: Table, todo: seq<Listed>, id: AssignmentId)
    requires FitsRows(rows, todo) && todo != []
    ensures HasOpen(todo, id) <==> HasOpen(todo[1..], id) || (todo[0].id == id && !Exhausted(todo[0]))
    ensures todo[0].id == id ==> !HasOpen(todo[1..], id)
  {
    if i :| 0 <= i < |todo| && todo[i].id == id && !Exhausted(todo[i]) {
      assert i == 0 || todo[1..][i - 1] == todo[i];
    }
    if i :| 0 <= i < |todo[1..]| && todo[1..][i].id == id && !Exhausted(todo[1..][i]) {
      assert todo[i + 1] == todo[1..][i];
    }
  }

  lemma ListingKeepsLimit(s: State, r: nat, offline: set<WorkerId>, id: AssignmentId)
    requires WithinLimit(s, id) && r < |s.todos| && s.todos[r] == []
    ensures WithinLimit(s.(todos := s.todos[r := Listing(s.rows, offline)]), id)
  {
    hide Listing, HasOpen;
    NothingOpen(id);
    UnderwayAtOne(s.todos, r, Listing(s.rows, offline), id);
    UnderwayElsewhere(s.todos, r, id);
    ListingOpens(s.rows, offline, id);
  }

  lemma NothingOpen(id: AssignmentId)
    ensures !HasOpen([], id)
  {
  }

  lemma TreatingKeepsLimit(s: State, r: nat, at: Time, fails: bool, id: AssignmentId)
    requires AllFit(s) && WithinLimit(s, id) && r < |s.todos| && s.todos[r] != []
    ensures WithinLimit(Next(s, TreatNext(r, at, fails)), id)
  {
    hide HasOpen;
    UnderwayAtOne(s.todos, r, s.todos[r][1..], id);
    HeadCloses(s.rows, s.todos[r], id);
    hide Underway, FitsRows;
  }

  lemma {:induction false} NextKeepsLimit(s: State, l: Step, id: AssignmentId)
    requires s.todos != [] && AllFit(s) && WithinLimit(s, id)
    requires Underway(s.todos, id) <= |s.todos|
    ensures WithinLimit(Next(s, l), id)
  {
    hide Underway, Listing, AllFit;
    if l.ListNow? {
      if l.r < |s.todos| && s.todos[l.r] == [] {
        ListingKeepsLimit(s, l.r, l.offline, id);
      }
    } else if l.TreatNext? {
      if l.r < |s.todos| && s.todos[l.r] != [] {
        TreatingKeepsLimit(s, l.r, l.at, l.fails, id);
      }
    }
  }

  /** One step re-queues a row exactly when it raises the row's retry count. */
  lemma NextCounts(s: State, l: Step, id: AssignmentId)
    ensures var s' := Next(s, l);
      && |s.rows| <= |s'.rows|
      && (id < |s.rows| ==> s'.rows[id].retryCount == s.rows[id].retryCount + if IsRequeued(s, l, id) then 1 else 0)
      && (id >= |s.rows| ==> !IsRequeued(s, l, id) && (id < |s'.rows| ==> s'.rows[id].retryCount == 0))
  {
    hide Listing;
  }

  lemma {:induction false} EveryRunFits(n: nat, steps: seq<Step>, id: AssignmentId)
    requires n > 0
    ensures var s := Run(n, steps); |s.todos| == n && AllFit(s) && WithinLimit(s, id)
    decreases |steps|
  {
    hide Next, AllFit, WithinLimit;
    if steps == [] {
      NothingRuns(n, id);
    } else {
      var s, l := Run(n, steps[..|steps| - 1]), steps[|steps| - 1];
      EveryRunFits(n, steps[..|steps| - 1], id);
      NextGrows(s, l);
      NextFits(s, l);
      UnderwayAtMost(s.todos, id);
      NextKeepsLimit(s, l, id);
    }
  }

  lemma NothingRuns(n: nat, id: AssignmentId)
    ensures |Init(n).todos| == n && AllFit(Init(n)) && WithinLimit(Init(n), id)
  {
  }

  lemma {:induction false} RequeuesAreCounted(n: nat, steps: seq<Step>, id: AssignmentId)
    ensures var rows := Run(n, steps).rows;
      RequeuesOf(n, steps, id) == if id < |rows| then rows[id].retryCount else 0
    decreases |steps|
  {
    if steps == [] {
    } else {
      hide Next, IsRequeued;
      RequeuesAreCounted(n, steps[..|steps| - 1], id);
      NextCounts(Run(n, steps[..|steps| - 1]), steps[|steps| - 1], id);
    }
  }

  /** With `n` reassigners at work, and whatever other writers do in between, an assignment is
      re-queued exactly as often as its retry count says, and at most `n - 1` times more than
      its limit: never more than the limit when there is one reassigner. */
  lemma {:induction false} RequeuesAreBounded(n: nat, steps: seq<Step>, id: AssignmentId)
    requires n > 0
    ensures var rows := Run(n, steps).rows;
      if id < |rows| then RequeuesOf(n, steps, id) == rows[id].retryCount <= rows[id].maxRetries + n - 1
      else RequeuesOf(n, steps, id) == 0
  {
    EveryRunFits(n, steps, id);
    RequeuesAreCounted(n, steps, id);
    hide Run, RequeuesOf, Underway;
  }

  // ----- the bound is reached

  ghost predicate Reachable(n: nat, s: State) {
    exists steps :: Run(n, steps) == s
  }

  lemma Do(n: nat, s: State, l: Step) returns (s': State)
    requires Reachable(n, s)
    ensures Reachable(n, s') && s' == Next(s, l)
  {
    var steps :| Run(n, steps) == s;
    assert (steps + [l])[..|steps|] == steps;
    s' := Run(n, steps + [l]);
  }

  /** One row, assigned to the offline worker 0, with `k` retries done, and no list. */
  ghost predicate OneOrphan(s: State, n: nat, limit: nat, k: nat) {
    && |s.rows| == 1 && IsOrphan(s.rows[0], {0})
    && s.rows[0].retryCount == k && s.rows[0].maxRetries == limit
    && |s.todos| == n && forall r :: 0 <= r < n ==> s.todos[r] == []
  }

  lemma ListsTheOrphan(rows: Table)
    requires |rows| == 1 && IsOrphan(rows[0], {0})
    ensures Listing(rows, {0}) == [Listed(0, rows[0].retryCount, rows[0].maxRetries)]
  {
    assert rows[..0] == [];
    assert Orphans(rows[..0], {0}) == [];
    assert Orphans(rows, {0}) == [0];
  }

  lemma {:induction false} RetriesToTheLimit(n: nat, limit: nat, k: nat)
    requires n > 0 && k < limit
    ensures exists s :: Reachable(n, s) && OneOrphan(s, n, limit, k)
    decreases k
  {
    hide Reachable, Listing, Orphans;
    if k == 0 {
      assert Run(n, []) == Init(n);
      StartIsReachable(n);
      var s := Do(n, Init(n), Create(0, limit, 0));
      assert OneOrphan(s, n, limit, 0);
    } else {
      RetriesToTheLimit(n, limit, k - 1);
      var s :| Reachable(n, s) && OneOrphan(s, n, limit, k - 1);
      ListsTheOrphan(s.rows);
      var s1 := Do(n, s, ListNow(0, {0}, false));
      var s2 := Do(n, s1, TreatNext(0, 0, false));
      var s3 := Do(n, s2, SetRow(0, Assigned, None, Some(0), 0));
      assert OneOrphan(s3, n, limit, k);
    }
  }

  lemma StartIsReachable(n: nat)
    ensures Reachable(n, Init(n))
  {
    assert Run(n, []) == Init(n);
  }

  /** The first `i` reassigners have listed the orphan. */
  ghost predicate ListedBy(s: State, n: nat, limit: nat, k: nat, i: nat) {
    && |s.rows| == 1 && IsOrphan(s.rows[0], {0})
    && s.rows[0].retryCount == k && s.rows[0].maxRetries == limit
    && |s.todos| == n && forall r :: 0 <= r < n ==> s.todos[r] == if r < i then [Listed(0, k, limit)] else []
  }

  lemma {:induction false} AllList(n: nat, limit: nat, k: nat, i: nat)
    requires n > 0 && k < limit && i <= n
    ensures exists s :: Reachable(n, s) && ListedBy(s, n, limit, k, i)
    decreases i
  {
    hide Reachable, Listing, Orphans, IsOrphan;
    if i == 0 {
      RetriesToTheLimit(n, limit, k);
      var s :| Reachable(n, s) && OneOrphan(s, n, limit, k);
      assert ListedBy(s, n, limit, k, 0);
    } else {
      AllList(n, limit, k, i - 1);
      var s :| Reachable(n, s) && ListedBy(s, n, limit, k, i - 1);
      ListsTheOrphan(s.rows);
      var s1 := Do(n, s, ListNow(i - 1, {0}, false));
      assert ListedBy(s1, n, limit, k, i);
    }
  }

  /** The first `i` of them have re-queued it. */
  ghost predicate TreatedBy(s: State, n: nat, limit: nat, k: nat, i: nat) {
    && |s.rows| == 1 && !s.rows[0].deleted
    && s.rows[0].retryCount == k + i && s.rows[0].maxRetries == limit
    && |s.todos| == n && forall r :: i <= r < n ==> s.todos[r] == [Listed(0, k, limit)]
  }

  lemma {:induction false} AllTreat(n: nat, limit: nat, k: nat, i: nat)
    requires n > 0 && k < limit && i <= n
    ensures exists s :: Reachable(n, s) && TreatedBy(s, n, limit, k, i)
    decreases i
  {
    hide Reachable, Listing, Orphans;
    if i == 0 {
      AllList(n, limit, k, n);
      var s :| Reachable(n, s) && ListedBy(s, n, limit, k, n);
      assert TreatedBy(s, n, limit, k, 0);
    } else {
      AllTreat(n, limit, k, i - 1);
      var s :| Reachable(n, s) && TreatedBy(s, n, limit, k, i - 1);
      var s1 := Do(n, s, TreatNext(i - 1, 0, false));
      assert TreatedBy(s1, n, limit, k, i);
    }
  }

  /** For every number of reassigners and every limit there is a run in which an assignment is
      re-queued `n - 1` times more than its limit. */
  lemma OvershootIsReached(n: nat, limit: nat)
    requires n > 0 && limit > 0
    ensures exists steps :: var rows := Run(n, steps).rows;
      |rows| == 1 && rows[0].maxRetries == limit && rows[0].retryCount == limit + n - 1
  {
    AllTreat(n, limit, limit - 1, n);
    var s :| Reachable(n, s) && TreatedBy(s, n, limit, limit - 1, n);
    var steps :| Run(n, steps) == s;
    assert Run(n, steps).rows == s.rows;
  }

  // ----- the budget

  /** Retries used so far, over all assignments. */
  function Spent(t: Table): nat {
    if t == [] then 0 else Spent(t[..|t| - 1]) + t[|t| - 1].retryCount
  }

  /** The retries granted when the assignments were created. */
  function Granted(t: Table): nat {
    if t == [] then 0 else Granted(t[..|t| - 1]) + t[|t| - 1].maxRetries
  }

  /** Retries still allowed, over all assignments. */
  function Remaining(t: Table): int {
    Granted(t) - Spent(t)
  }

  lemma {:induction false} SumsAtOne(t: Table, id: AssignmentId, row: Row)
    requires id < |t|
    ensures Spent(t[id := row]) == Spent(t) + row.retryCount - t[id].retryCount
    ensures Granted(t[id := row]) == Granted(t) + row.maxRetries - t[id].maxRetries
    decreases |t|
  {
    var n := |t| - 1;
    if id == n {
      assert t[id := row][..n] == t[..n];
    } else {
      SumsAtOne(t[..n], id, row);
      assert t[id := row][..n] == t[..n][id := row];
    }
  }

  lemma SumsSnoc(t: Table, row: Row)
    ensures Spent(t + [row]) == Spent(t) + row.retryCount
    ensures Granted(t + [row]) == Granted(t) + row.maxRetries
  {
    assert (t + [row])[..|t|] == t;
  }

  predicate Requeuing(s: State, l: Step) {
    l.TreatNext? && l.r < |s.todos| && s.todos[l.r] != [] && IsRequeued(s, l, s.todos[l.r][0].id)
  }

  /** Every re-queue takes one retry from the remaining budget, only the creation of an
      assignment adds to it, and no other step changes it. */
  lemma RequeueTakesOneRetry(s: State, l: Step)
    ensures var s' := Next(s, l);
      && Spent(s'.rows) == Spent(s.rows) + (if Requeuing(s, l) then 1 else 0)
      && Remaining(s'.rows) ==
         Remaining(s.rows) - (if Requeuing(s, l) then 1 else 0) + (if l.Create? then RetryLimit(l.maxRetries) else 0)
  {
    hide Listing, Spent, Granted, SetStatus;
    match l
    case ListNow(_, _, _) =>
    case Create(worker, maxRetries, at) => SumsSnoc(s.rows, NewRow(worker, maxRetries, at));
    case SetRow(id, status, result, worker, at) =>
      if Finds(s.rows, id) {
        StatusKeepsCounts(s.rows[id], status, result, at);
        SumsAtOne(s.rows, id, SetStatus(s.rows[id], status, result, at).(worker := worker));
      }
    case Delete(id) =>
      if Finds(s.rows, id) {
        SumsAtOne(s.rows, id, s.rows[id].(deleted := true));
      }
    case TreatNext(r, at, fails) =>
      if r < |s.todos| && s.todos[r] != [] && Finds(s.rows, s.todos[r][0].id) {
        var id := s.todos[r][0].id;
        StatusKeepsCounts(s.rows[id], FailedStatus, None, at);
        SumsAtOne(s.rows, id, Requeue(s.rows[id]));
        SumsAtOne(s.rows, id, SetStatus(s.rows[id], FailedStatus, None, at));
      }
  }

  lemma StatusKeepsCounts(row: Row, status: Status, result: Option<ExecStatus>, at: Time)
    ensures var row' := SetStatus(row, status, result, at); row'.retryCount == row.retryCount && row'.maxRetries == row.maxRetries
  {
  }

  function AllRequeues(n: nat, steps: seq<Step>): nat {
    if steps == [] then 0
    else
      var k := |steps| - 1;
      AllRequeues(n, steps[..k]) + if Requeuing(Run(n, steps[..k]), steps[k]) then 1 else 0
  }

  lemma {:induction false} WithinGranted(t: Table, extra: nat)
    requires forall id :: 0 <= id < |t| ==> t[id].retryCount <= t[id].maxRetries + extra
    ensures Spent(t) <= Granted(t) + extra * |t|
    decreases |t|
  {
    if t == [] {
    } else {
      WithinGranted(t[..|t| - 1], extra);
      assert extra * |t| == extra * (|t| - 1) + extra;
    }
  }

  lemma {:induction false} AllRequeuesAreSpent(n: nat, steps: seq<Step>)
    ensures AllRequeues(n, steps) == Spent(Run(n, steps).rows)
    decreases |steps|
  {
    hide Next, Requeuing;
    if steps == [] {
    } else {
      AllRequeuesAreSpent(n, steps[..|steps| - 1]);
      RequeueTakesOneRetry(Run(n, steps[..|steps| - 1]), steps[|steps| - 1]);
    }
  }

  /** So in any run the re-queues, over all assignments, deleted ones included, are exactly the
      retries spent, and no more than were granted when there is one reassigner. */
  lemma {:induction false} AllRequeuesAreBounded(n: nat, steps: seq<Step>)
    requires n > 0
    ensures var rows := Run(n, steps).rows;
      AllRequeues(n, steps) == Spent(rows) <= Granted(rows) + (n - 1) * |rows|
  {
    hide Run, AllRequeues, RequeuesOf, Spent, Granted;
    AllRequeuesAreSpent(n, steps);
    forall id: nat | id < |Run(n, steps).rows|
      ensures Run(n, steps).rows[id].retryCount <= Run(n, steps).rows[id].maxRetries + (n - 1)
    {
      RequeuesAreBounded(n, steps, id);
    }
    WithinGranted(Run(n, steps).rows, n - 1);
  }

  /** What the bound does not say: a result that arrives between the listing and the update
      is lost, and the finished assignment is queued again. */
  lemma LateResultIsOverwritten()
    ensures exists steps :: var before, after := Run(1, steps).rows, Next(Run(1, steps), TreatNext(0, 2, false)).rows;
      && |before| == |after| == 1
      && before[0].status == CompletedStatus
      && after[0].status == Pending && after[0].retryCount == 1
  {
    hide Reachable, Listing, Orphans;
    StartIsReachable(1);
    var s := Do(1, Init(1), Create(0, 1, 0));
    ListsTheOrphan(s.rows);
    s := Do(1, s, ListNow(0, {0}, false));
    s := Do(1, s, SetRow(0, CompletedStatus, Some(Success), Some(0), 1));
    assert s.todos[0] == [Listed(0, 0, 1)];
    LateIsReachable(s);
  }

  lemma LateIsReachable(s: State)
    requires Reachable(1, s)
    ensures exists steps :: Run(1, steps) == s
  {
  }
}
