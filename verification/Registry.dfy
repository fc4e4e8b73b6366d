/** The in-memory registry of connected workers and the life of their channels.

    Every operation below runs under the registry's lock, so an interleaving of the
    streams, the stale sweep and the dispatcher is a sequence of whole operations.

    A worker id names a host: a host that registers again gets its old id from the database,
    whether or not its earlier connection is still in the map.  Connections are therefore
    counted separately, in the order in which they are made. */
module Registry {
  import opened Ids
  import opened Seqs
  import opened Wrappers

  type Conn = nat

  // ----- the registry as a value

  datatype Entry = Entry(conn: Conn, activeTasks: int, lastSeen: Time)

  /** Who is connected, and how often the channels of each connection so far were closed. */
  datatype View = View(live: map<WorkerId, Entry>, closings: seq<nat>)

  datatype Op =
    | Register(id: WorkerId, now: Time, dbFails: bool)
    | Heartbeat(id: WorkerId, activeTasks: int, now: Time)
    | Deregister(id: WorkerId)
    | Sweep(now: Time)

  function Stale(live: map<WorkerId, Entry>, threshold: Time): set<WorkerId> {
    set id | id in live && live[id].lastSeen < threshold
  }

  function ConnsOf(live: map<WorkerId, Entry>, ids: set<WorkerId>): set<Conn> {
    set id | id in ids && id in live :: live[id].conn
  }

  function CloseAll(closings: seq<nat>, conns: set<Conn>): (r: seq<nat>)
    ensures |r| == |closings|
    ensures forall c :: 0 <= c < |closings| ==> r[c] == closings[c] + if c in conns then 1 else 0
  {
    seq(|closings|, c requires 0 <= c < |closings| => closings[c] + if c in conns then 1 else 0)
  }

  /** The workers `gone` are disconnected and their channels closed. */
  function Without(v: View, gone: set<WorkerId>): View {
    View(v.live - gone, CloseAll(v.closings, ConnsOf(v.live, gone)))
  }

  /** Registering overwrites what the map holds for the id and closes nothing. */
  function Next(v: View, op: Op, timeout: int): View {
    match op
    case Register(id, now, dbFails) =>
      if dbFails then v else View(v.live[id := Entry(|v.closings|, 0, now)], v.closings + [0])
    case Heartbeat(id, activeTasks, now) =>
      if id in v.live then v.(live := v.live[id := Entry(v.live[id].conn, activeTasks, now)]) else v
    case Deregister(id) =>
      if id in v.live then Without(v, {id}) else v
    case Sweep(now) =>
      Without(v, Stale(v.live, now - timeout))
  }

  const EMPTY := View(map[], [])

  function RunFrom(v: View, ops: seq<Op>, timeout: int): View {
    if ops == [] then v else Next(RunFrom(v, ops[..|ops| - 1], timeout), ops[|ops| - 1], timeout)
  }

  function Run(ops: seq<Op>, timeout: int): View {
    RunFrom(EMPTY, ops, timeout)
  }

  lemma RunSnoc(v: View, ops: seq<Op>, op: Op, timeout: int)
    ensures RunFrom(v, ops + [op], timeout) == Next(RunFrom(v, ops, timeout), op, timeout)
  {
    assert (ops + [op])[..|ops|] == ops;
  }

  lemma RunTwo(v: View, a: Op, b: Op, timeout: int)
    ensures RunFrom(v, [a, b], timeout) == Next(Next(v, a, timeout), b, timeout)
  {
    RunSnoc(v, [], a, timeout);
    RunSnoc(v, [a], b, timeout);
    assert [] + [a] == [a] && [a] + [b] == [a, b];
  }

  lemma RunThree(v: View, a: Op, b: Op, c: Op, timeout: int)
    ensures RunFrom(v, [a, b, c], timeout) == Next(Next(Next(v, a, timeout), b, timeout), c, timeout)
  {
    RunTwo(v, a, b, timeout);
    RunSnoc(v, [a, b], c, timeout);
    assert [a, b] + [c] == [a, b, c];
  }

  // ----- closed at most once, open while mapped

  predicate MappedAt(v: View, id: WorkerId, c: Conn) {
    id in v.live && v.live[id].conn == c
  }

  ghost predicate Mapped(v: View, c: Conn) {
    exists id :: MappedAt(v, id, c)
  }

  /** Every worker in the map has a connection of its own whose channels are open, and no
      connection was closed more than once. */
  ghost predicate ClosedAtMostOnce(v: View) {
    && (forall id :: id in v.live ==> v.live[id].conn < |v.closings| && v.closings[v.live[id].conn] == 0)
    && (forall id, id' :: id in v.live && id' in v.live && v.live[id].conn == v.live[id'].conn ==> id == id')
    && (forall c :: 0 <= c < |v.closings| ==> v.closings[c] <= 1)
  }

  lemma WithoutKeeps(v: View, gone: set<WorkerId>)
    requires ClosedAtMostOnce(v)
    ensures ClosedAtMostOnce(Without(v, gone))
  {
  }

  lemma {:induction false} NextClosesAtMostOnce(v: View, op: Op, timeout: int)
    requires ClosedAtMostOnce(v)
    ensures ClosedAtMostOnce(Next(v, op, timeout))
  {
    hide Without, Stale;
    if op.Deregister? {
      WithoutKeeps(v, {op.id});
    } else if op.Sweep? {
      WithoutKeeps(v, Stale(v.live, op.now - timeout));
    } else {
      EntryKeeps(v, op, timeout);
    }
  }

  lemma EntryKeeps(v: View, op: Op, timeout: int)
    requires ClosedAtMostOnce(v) && (op.Register? || op.Heartbeat?)
    ensures ClosedAtMostOnce(Next(v, op, timeout))
  {
  }

  lemma {:induction false} RunClosesAtMostOnce(v: View, ops: seq<Op>, timeout: int)
    requires ClosedAtMostOnce(v)
    ensures ClosedAtMostOnce(RunFrom(v, ops, timeout))
    decreases |ops|
  {
    if ops == [] {
    } else {
      RunClosesAtMostOnce(v, ops[..|ops| - 1], timeout);
      NextClosesAtMostOnce(RunFrom(v, ops[..|ops| - 1], timeout), ops[|ops| - 1], timeout);
    }
  }

  /** Over any interleaving of register, heartbeat, deregister and sweep, the channels of a
      connection are closed at most once, and never while the map holds it. */
  lemma {:induction false} ChannelsAreClosedAtMostOnce(ops: seq<Op>, timeout: int, id: WorkerId, c: Conn)
    ensures var v := Run(ops, timeout);
      && (c < |v.closings| ==> v.closings[c] <= 1)
      && (MappedAt(v, id, c) ==> c < |v.closings| && v.closings[c] == 0)
  {
    RunClosesAtMostOnce(EMPTY, ops, timeout);
    hide RunFrom;
  }

  // ----- how long a worker stays

  predicate Concerns(op: Op, id: WorkerId) {
    !op.Sweep? && op.id == id
  }

  /** No sweep of `ops` finds a worker stale that was last seen at `t`. */
  predicate SweepsSpare(ops: seq<Op>, timeout: int, t: Time) {
    forall k :: 0 <= k < |ops| && ops[k].Sweep? ==> ops[k].now - timeout <= t
  }

  lemma SparesSnoc(ops: seq<Op>, timeout: int, t: Time)
    requires ops != []
    ensures var n := |ops| - 1;
      SweepsSpare(ops, timeout, t) <==>
        SweepsSpare(ops[..n], timeout, t) && (ops[n].Sweep? ==> ops[n].now - timeout <= t)
  {
  }

  lemma NextSpares(v: View, op: Op, timeout: int, id: WorkerId)
    requires !Concerns(op, id)
    ensures var live' := Next(v, op, timeout).live;
      && (id in live' <==> id in v.live && (op.Sweep? ==> op.now - timeout <= v.live[id].lastSeen))
      && (id in live' ==> live'[id] == v.live[id])
  {
  }

  lemma {:induction false} QuietRun(v: View, ops: seq<Op>, timeout: int, id: WorkerId)
    requires id in v.live
    requires forall k :: 0 <= k < |ops| ==> !Concerns(ops[k], id)
    ensures var live' := RunFrom(v, ops, timeout).live;
      && (id in live' <==> SweepsSpare(ops, timeout, v.live[id].lastSeen))
      && (id in live' ==> live'[id] == v.live[id])
    decreases |ops|
  {
    if ops == [] {
    } else {
      QuietRun(v, ops[..|ops| - 1], timeout, id);
      NextSpares(RunFrom(v, ops[..|ops| - 1], timeout), ops[|ops| - 1], timeout, id);
      SparesSnoc(ops, timeout, v.live[id].lastSeen);
      hide SweepsSpare, Next;
    }
  }

  /** A connected worker that reports at time `t` and is heard of no more stays in the map,
      under the same connection and with the load it reported, if and only if no later sweep
      comes more than the timeout after `t`. */
  lemma {:induction false} HeartbeatHoldsForTheTimeout(v: View, id: WorkerId, activeTasks: int, t: Time, ops: seq<Op>, timeout: int)
    requires id in v.live
    requires forall k :: 0 <= k < |ops| ==> !Concerns(ops[k], id)
    ensures var v' := RunFrom(Next(v, Heartbeat(id, activeTasks, t), timeout), ops, timeout);
      && (id in v'.live <==> forall k :: 0 <= k < |ops| && ops[k].Sweep? ==> ops[k].now <= t + timeout)
      && (id in v'.live ==> v'.live[id] == Entry(v.live[id].conn, activeTasks, t))
  {
    var v0 := Next(v, Heartbeat(id, activeTasks, t), timeout);
    assert v0.live[id] == Entry(v.live[id].conn, activeTasks, t);
    QuietRun(v0, ops, timeout, id);
    hide RunFrom, Next;
  }

  /** Nothing but a deregistration takes the worker out of the map or replaces its connection
      as long as every sweep comes within the timeout of time `t`, no matter how often the
      worker reports after `t`. */
  lemma {:induction false} ReportingWorkerStays(v: View, ops: seq<Op>, timeout: int, id: WorkerId, t: Time)
    requires id in v.live && v.live[id].lastSeen >= t && SweepsSpare(ops, timeout, t)
    requires forall k :: 0 <= k < |ops| && Concerns(ops[k], id) ==> ops[k].Heartbeat? && ops[k].now >= t
    ensures var live' := RunFrom(v, ops, timeout).live;
      id in live' && live'[id].conn == v.live[id].conn && live'[id].lastSeen >= t
    decreases |ops|
  {
    if ops == [] {
    } else {
      var n := |ops| - 1;
      ReportingWorkerStays(v, ops[..n], timeout, id, t);
      if !Concerns(ops[n], id) {
        NextSpares(RunFrom(v, ops[..n], timeout), ops[n], timeout, id);
        hide Next;
      }
    }
  }

  // ----- what becomes of a connection

  /** A connection that has left the map does not return, and is not closed any more. */
  lemma NextIsFinal(v: View, op: Op, timeout: int, c: Conn)
    requires ClosedAtMostOnce(v) && c < |v.closings| && !Mapped(v, c)
    ensures var v' := Next(v, op, timeout); c < |v'.closings| && !Mapped(v', c) && v'.closings[c] == v.closings[c]
  {
    var v' := Next(v, op, timeout);
    forall id
      ensures !MappedAt(v', id, c)
    {
      assert !MappedAt(v, id, c);
    }
    assert forall id :: id in v.live ==> !MappedAt(v, id, c);
  }

  lemma {:induction false} FateIsFinal(v: View, ops: seq<Op>, timeout: int, c: Conn)
    requires ClosedAtMostOnce(v) && c < |v.closings| && !Mapped(v, c)
    ensures var v' := RunFrom(v, ops, timeout); c < |v'.closings| && !Mapped(v', c) && v'.closings[c] == v.closings[c]
    decreases |ops|
  {
    if ops == [] {
    } else {
      var front := ops[..|ops| - 1];
      FateIsFinal(v, front, timeout, c);
      RunClosesAtMostOnce(v, front, timeout);
      NextIsFinal(RunFrom(v, front, timeout), ops[|ops| - 1], timeout, c);
    }
  }

  predicate Registers(op: Op, id: WorkerId) {
    op.Register? && op.id == id && !op.dbFails
  }

  /** What one operation does to a connection in the map. */
  lemma NextDecides(v: View, op: Op, timeout: int, id: WorkerId, c: Conn)
    requires ClosedAtMostOnce(v) && MappedAt(v, id, c)
    ensures var v' := Next(v, op, timeout);
      && c < |v'.closings|
      && (MappedAt(v', id, c) || !Mapped(v', c))
      && (Registers(op, id) ==> !Mapped(v', c) && v'.closings[c] == 0)
      && (!Registers(op, id) && !Mapped(v', c) ==> v'.closings[c] == 1)
  {
    var v' := Next(v, op, timeout);
    if !MappedAt(v', id, c) {
      forall id'
        ensures !MappedAt(v', id', c)
      {
        assert MappedAt(v, id', c) ==> id' == id;
      }
    }
  }

  /** Some operation registers the id while the map holds connection `c` for it. */
  ghost predicate Replaced(v: View, ops: seq<Op>, timeout: int, id: WorkerId, c: Conn) {
    exists k :: 0 <= k < |ops| && Registers(ops[k], id) && MappedAt(RunFrom(v, ops[..k], timeout), id, c)
  }

  lemma ReplacedSnoc(v: View, ops: seq<Op>, timeout: int, id: WorkerId, c: Conn)
    requires ops != []
    ensures var n := |ops| - 1;
      Replaced(v, ops, timeout, id, c) <==>
        Replaced(v, ops[..n], timeout, id, c) || (Registers(ops[n], id) && MappedAt(RunFrom(v, ops[..n], timeout), id, c))
  {
    var n := |ops| - 1;
    hide RunFrom, MappedAt;
    assert forall k :: 0 <= k < n ==> ops[..n][k] == ops[k] && ops[..n][..k] == ops[..k];
    if k :| 0 <= k < |ops[..n]| && Registers(ops[..n][k], id) && MappedAt(RunFrom(v, ops[..n][..k], timeout), id, c) {
      assert Registers(ops[k], id) && MappedAt(RunFrom(v, ops[..k], timeout), id, c);
    }
  }

  /** A connection that has left the map was closed, exactly once, unless its id was
      registered again while the map still held it: then, and only then, its channels stay
      open for good. */
  lemma {:induction false} LeaksExactlyWhenReplaced(v: View, ops: seq<Op>, timeout: int, id: WorkerId, c: Conn)
    requires ClosedAtMostOnce(v) && MappedAt(v, id, c)
    ensures var v' := RunFrom(v, ops, timeout);
      && c < |v'.closings|
      && (MappedAt(v', id, c) || !Mapped(v', c))
      && (MappedAt(v', id, c) ==> !Replaced(v, ops, timeout, id, c))
      && (!Mapped(v', c) ==> v'.closings[c] == if Replaced(v, ops, timeout, id, c) then 0 else 1)
    decreases |ops|
  {
    if ops == [] {
    } else {
      var front, op := ops[..|ops| - 1], ops[|ops| - 1];
      var u := RunFrom(v, front, timeout);
      LeaksExactlyWhenReplaced(v, front, timeout, id, c);
      RunClosesAtMostOnce(v, front, timeout);
      ReplacedSnoc(v, ops, timeout, id, c);
      hide Replaced, Next, ClosedAtMostOnce;
      if MappedAt(u, id, c) {
        NextDecides(u, op, timeout, id, c);
      } else {
        assert !MappedAt(u, id, c);
        NextIsFinal(u, op, timeout, c);
      }
    }
  }

  /** A host that registers twice without being deregistered: the first connection is out of
      the map, open, and nothing will ever close it. */
  lemma ReplacedConnectionIsNeverClosed(id: WorkerId, first: Time, second: Time, ops: seq<Op>, timeout: int)
    ensures var v := RunFrom(Run([Register(id, first, false), Register(id, second, false)], timeout), ops, timeout);
      !Mapped(v, 0) && |v.closings| > 0 && v.closings[0] == 0
  {
    var twice := [Register(id, first, false), Register(id, second, false)];
    RunTwo(EMPTY, twice[0], twice[1], timeout);
    var v := Run(twice, timeout);
    RunClosesAtMostOnce(EMPTY, twice, timeout);
    assert v == View(map[id := Entry(1, 0, second)], [0, 0]);
    assert forall i :: !MappedAt(v, i, 0);
    FateIsFinal(v, ops, timeout, 0);
  }

  // ----- the deferred Deregister of a stream whose worker a sweep removed

  predicate Removes(v: View, op: Op, timeout: int, id: WorkerId) {
    id in v.live && id !in Next(v, op, timeout).live
  }

  /** No operation after the one at `k` removes the id. */
  ghost predicate Stays(v: View, ops: seq<Op>, timeout: int, id: WorkerId, k: nat) {
    forall j :: k < j < |ops| ==> !Removes(RunFrom(v, ops[..j], timeout), ops[j], timeout, id)
  }

  /** Some operation registers the id, and no later one removes it again. */
  ghost predicate IsBack(v: View, ops: seq<Op>, timeout: int, id: WorkerId) {
    exists k: nat :: k < |ops| && Registers(ops[k], id) && Stays(v, ops, timeout, id, k)
  }

  lemma StaysSnoc(v: View, ops: seq<Op>, timeout: int, id: WorkerId, k: nat)
    requires k < |ops| - 1
    ensures var n := |ops| - 1;
      Stays(v, ops, timeout, id, k) <==>
        Stays(v, ops[..n], timeout, id, k) && !Removes(RunFrom(v, ops[..n], timeout), ops[n], timeout, id)
  {
    hide RunFrom, Removes;
    assert forall j :: 0 <= j < |ops| - 1 ==> ops[..|ops| - 1][j] == ops[j] && ops[..|ops| - 1][..j] == ops[..j];
  }

  lemma BackIsOneOf(v: View, ops: seq<Op>, timeout: int, id: WorkerId)
    requires ops != [] && IsBack(v, ops, timeout, id)
    ensures var n := |ops| - 1;
      || Registers(ops[n], id)
      || (IsBack(v, ops[..n], timeout, id) && !Removes(RunFrom(v, ops[..n], timeout), ops[n], timeout, id))
  {
    hide RunFrom, Removes, Registers, Stays;
    var n := |ops| - 1;
    var k: nat :| k < |ops| && Registers(ops[k], id) && Stays(v, ops, timeout, id, k);
    if k < n {
      StaysSnoc(v, ops, timeout, id, k);
      assert Registers(ops[..n][k], id);
    }
  }

  lemma IsBackSnoc(v: View, ops: seq<Op>, timeout: int, id: WorkerId)
    requires ops != []
    ensures var n := |ops| - 1;
      IsBack(v, ops, timeout, id) <==>
        || Registers(ops[n], id)
        || (IsBack(v, ops[..n], timeout, id) && !Removes(RunFrom(v, ops[..n], timeout), ops[n], timeout, id))
  {
    hide RunFrom, Removes, Registers, Stays;
    var n := |ops| - 1;
    if IsBack(v, ops, timeout, id) {
      BackIsOneOf(v, ops, timeout, id);
    }
    NoneAfterTheLast(v, ops, timeout, id);
    if k: nat :| k < n && Registers(ops[..n][k], id) && Stays(v, ops[..n], timeout, id, k) {
      StaysSnoc(v, ops, timeout, id, k);
      assert Registers(ops[k], id);
    }
  }

  lemma NoneAfterTheLast(v: View, ops: seq<Op>, timeout: int, id: WorkerId)
    requires ops != []
    ensures Stays(v, ops, timeout, id, |ops| - 1)
  {
  }

  lemma {:induction false} LiveExactlyWhenBack(v: View, ops: seq<Op>, timeout: int, id: WorkerId)
    requires id !in v.live
    ensures var v' := RunFrom(v, ops, timeout);
      && |v.closings| <= |v'.closings|
      && (id in v'.live <==> IsBack(v, ops, timeout, id))
      && (id in v'.live ==> v'.live[id].conn >= |v.closings|)
    decreases |ops|
  {
    if ops == [] {
    } else {
      LiveExactlyWhenBack(v, ops[..|ops| - 1], timeout, id);
      IsBackSnoc(v, ops, timeout, id);
      hide IsBack;
    }
  }

  /** After a sweep has removed a worker, the deferred Deregister of its stream changes
      nothing if and only if the id is not back: registered again in between, and not removed
      since.  If it is back, the Deregister closes and forgets the newer connection, which is
      not the one whose stream ended. */
  lemma {:induction false} DeregisterAfterSweepIsNoOpExactlyWhenNotBack(v: View, now: Time, between: seq<Op>, id: WorkerId, timeout: int)
    requires ClosedAtMostOnce(v) && id in Stale(v.live, now - timeout)
    ensures var swept := Next(v, Sweep(now), timeout);
      var v' := RunFrom(swept, between, timeout);
      var v'' := Next(v', Deregister(id), timeout);
      && (v'' == v' <==> !IsBack(swept, between, timeout, id))
      && ((forall k :: 0 <= k < |between| ==> !Registers(between[k], id)) ==> v'' == v')
      && (v'' != v' ==> id in v'.live && v.live[id].conn < v'.live[id].conn < |v''.closings| &&
                        v''.closings[v'.live[id].conn] == 1 && !Mapped(v'', v'.live[id].conn))
  {
    var swept := Next(v, Sweep(now), timeout);
    var v' := RunFrom(swept, between, timeout);
    NextClosesAtMostOnce(v, Sweep(now), timeout);
    RunClosesAtMostOnce(swept, between, timeout);
    LiveExactlyWhenBack(swept, between, timeout, id);
    if id in v'.live {
      NextDecides(v', Deregister(id), timeout, id, v'.live[id].conn);
    }
    hide RunFrom, Stale;
  }

  /** A host that reconnects after a sweep is torn down by the end of its old stream. */
  lemma ReconnectIsTornDown(id: WorkerId, timeout: nat)
    ensures var before := Run([Register(id, 0, false), Sweep(timeout + 1), Register(id, timeout + 2, false)], timeout);
      && MappedAt(before, id, 1)
      && Next(before, Deregister(id), timeout) == View(map[], [1, 1])
  {
    hide RunFrom, Without, Stale;
    var register, sweep, again := Register(id, 0, false), Sweep(timeout + 1), Register(id, timeout + 2, false);
    RunThree(EMPTY, register, sweep, again, timeout);
    var v1 := Next(EMPTY, register, timeout);
    assert v1 == View(map[id := Entry(0, 0, 0)], [0]);
    SweepsAll(v1, id, 1);
    LoneWorkerLeaves(id, 0, 0, [0]);
    assert Next(v1, sweep, timeout) == View(map[], [1]);
    assert Next(View(map[], [1]), again, timeout) == View(map[id := Entry(1, 0, timeout + 2)], [1, 0]) by {
      assert [1] + [0] == [1, 0];
    }
    LoneWorkerLeaves(id, 1, timeout + 2, [1, 0]);
    assert [1, 0][1 := 1] == [1, 1];
  }

  lemma SweepsAll(v: View, id: WorkerId, threshold: Time)
    requires v.live.Keys == {id} && v.live[id].lastSeen < threshold
    ensures Stale(v.live, threshold) == {id}
  {
    assert forall i :: i in v.live <==> i in v.live.Keys;
  }

  lemma LoneWorkerLeaves(id: WorkerId, c: Conn, seen: Time, closings: seq<nat>)
    requires c < |closings|
    ensures Without(View(map[id := Entry(c, 0, seen)], closings), {id}) == View(map[], closings[c := closings[c] + 1])
  {
    var live := map[id := Entry(c, 0, seen)];
    assert ConnsOf(live, {id}) == {c};
    assert live - {id} == map[];
  }

  // ----- the registry itself

  datatype Channel = Channel(open: bool, closes: nat)

  class ConnectedWorker {
    const id: WorkerId
    var activeTasks: int
    var lastSeen: Time
    var taskCh: Channel
    var controlCh: Channel
    ghost const conn: Conn

    constructor (id: WorkerId, now: Time, ghost conn: Conn)
      ensures this.id == id && this.conn == conn && activeTasks == 0 && lastSeen == now && IsOpen()
    {
      this.id, this.conn, activeTasks, lastSeen := id, conn, 0, now;
      taskCh, controlCh := Channel(true, 0), Channel(true, 0);
    }

    predicate IsOpen()
      reads this
    {
      taskCh == Channel(true, 0) && controlCh == Channel(true, 0)
    }

    predicate IsClosed()
      reads this
    {
      taskCh == Channel(false, 1) && controlCh == Channel(false, 1)
    }

    /** Closing a closed channel panics, so both must be open. */
    method Close()
      requires IsOpen()
      modifies this
      ensures IsClosed()
      ensures activeTasks == old(activeTasks) && lastSeen == old(lastSeen)
    {
      assert taskCh.open;
      taskCh := Channel(false, taskCh.closes + 1);
      assert controlCh.open;
      controlCh := Channel(false, controlCh.closes + 1);
    }
  }

  function IdSet(ids: seq<WorkerId>): set<WorkerId> {
    set id | id in ids
  }

  class WorkerRegistry {
    var workers: map<WorkerId, ConnectedWorker>
    const interval: int   // at which workers report
    const timeout: int    // after which they are stale
    ghost var conns: seq<ConnectedWorker>   // every connection so far

    ghost predicate Valid()
      reads this, conns
    {
      && (forall c :: 0 <= c < |conns| ==> conns[c].conn == c && (conns[c].IsOpen() || conns[c].IsClosed()))
      && (forall id :: id in workers ==>
            workers[id].id == id && workers[id].conn < |conns| && conns[workers[id].conn] == workers[id] && workers[id].IsOpen())
    }

    ghost function Abstract(): View
      reads this, conns
      requires Valid()
    {
      View(map id | id in workers :: Entry(workers[id].conn, workers[id].activeTasks, workers[id].lastSeen),
           seq(|conns|, c requires 0 <= c < |conns| reads this, conns => conns[c].taskCh.closes))
    }

    constructor (heartbeatSec: int, staleTimeoutSec: int)
      ensures Valid() && Abstract() == EMPTY
      ensures interval == if heartbeatSec > 0 then heartbeatSec else 10
      ensures timeout == if staleTimeoutSec > 0 then staleTimeoutSec else 30
    {
      interval := if heartbeatSec > 0 then heartbeatSec else 10;
      timeout := if staleTimeoutSec > 0 then staleTimeoutSec else 30;
      workers, conns := map[], [];
    }

    /** `id` is the one the insert returns, new or old. */
    method RegisterWorker(id: WorkerId, now: Time, dbFails: bool) returns (r: Option<ConnectedWorker>)
      requires Valid()
      modifies this
      ensures Valid()
      ensures Abstract() == Next(old(Abstract()), Register(id, now, dbFails), timeout)
      ensures r.Some? <==> !dbFails
      ensures r.Some? ==> fresh(r.value) && r.value.id == id && r.value.IsOpen()
      ensures r.Some? ==> r.value.activeTasks == 0 && r.value.lastSeen == now
      ensures workers == if r.Some? then old(workers)[id := r.value] else old(workers)
      ensures conns == if dbFails then old(conns) else old(conns) + [workers[id]]
    {
      if dbFails {
        return None;
      }
      var cw := new ConnectedWorker(id, now, |conns|);
      Admit(cw);
      r := Some(cw);
    }

    method Admit(cw: ConnectedWorker)
      requires Valid() && cw.conn == |conns| && cw.IsOpen() && cw !in conns
      modifies this
      ensures Valid()
      ensures Abstract() == View(old(Abstract()).live[cw.id := Entry(cw.conn, cw.activeTasks, cw.lastSeen)],
                                 old(Abstract()).closings + [0])
      ensures workers == old(workers)[cw.id := cw] && conns == old(conns) + [cw]
    {
      workers := workers[cw.id := cw];
      conns := conns + [cw];
    }

    /** `dbFails`: the store cannot record the heartbeat. */
    method RecordHeartbeat(id: WorkerId, activeTasks: int, now: Time, dbFails: bool) returns (ok: bool)
      requires Valid()
      modifies conns
      ensures Valid()
      ensures Abstract() == Next(old(Abstract()), Heartbeat(id, activeTasks, now), timeout)
      ensures ok <==> id in workers && !dbFails
      ensures id in workers ==> workers[id].activeTasks == activeTasks && workers[id].lastSeen == now
      ensures forall cw :: cw in conns && !(id in workers && cw == workers[id]) ==> unchanged(cw)
    {
      if id !in workers {
        return false;
      }
      var cw := workers[id];
      assert cw == conns[cw.conn];
      cw.activeTasks := activeTasks;
      cw.lastSeen := now;
      ok := !dbFails;
    }

    /** Closes both channels of a connected worker and forgets it. */
    method Drop(id: WorkerId)
      requires Valid() && id in workers
      modifies this`workers, conns
      ensures Valid()
      ensures Abstract() == Without(old(Abstract()), {id})
      ensures workers == old(workers) - {id} && old(workers)[id].IsClosed()
    {
      var cw := workers[id];
      ghost var v := Abstract();
      assert cw == conns[cw.conn];
      assert ConnsOf(v.live, {id}) == {cw.conn};
      ghost var others := set c | 0 <= c < |conns| && c != cw.conn :: conns[c];
      assert cw !in others;
      cw.Close();
      assert unchanged(others);
      assert forall c: Conn :: c < |conns| && c != cw.conn ==> conns[c] in others;
      workers := workers - {id};
      assert Abstract().live == v.live - {id} by {
        assert forall id' :: id' in workers ==> workers[id'] in others;
      }
    }

    method DeregisterWorker(id: WorkerId)
      requires Valid()
      modifies this`workers, conns
      ensures Valid()
      ensures Abstract() == Next(old(Abstract()), Deregister(id), timeout)
      ensures workers == old(workers) - {id}
      ensures id in old(workers) ==> old(workers)[id].IsClosed()
      ensures id !in old(workers) ==> unchanged(this) && unchanged(set cw | cw in conns)
    {
      if id in workers {
        Drop(id);
      }
    }

    lemma StaleWorkers(threshold: Time)
      requires Valid()
      ensures Stale(Abstract().live, threshold) == set id | id in workers && workers[id].lastSeen < threshold
    {
    }

    /** Collects the stale ids in the map's own order, then drops them one by one. */
    method DetectStaleWorkers(now: Time) returns (staleIDs: seq<WorkerId>)
      requires Valid()
      modifies this`workers, conns
      ensures Valid()
      ensures Abstract() == Next(old(Abstract()), Sweep(now), timeout)
      ensures Distinct(staleIDs)
      ensures forall id :: id in staleIDs <==> id in old(workers) && old(workers[id].lastSeen) < now - timeout
      ensures workers == map id | id in old(workers) && id !in staleIDs :: old(workers)[id]
    {
      hide Valid, Abstract, Stale, Without;
      StaleWorkers(now - timeout);
      var threshold := now - timeout;
      staleIDs := [];
      var rest := workers.Keys;
      while rest != {}
        invariant rest <= workers.Keys
        invariant Distinct(staleIDs)
        invariant forall id :: id in staleIDs <==> id in workers && id !in rest && workers[id].lastSeen < threshold
        decreases |rest|
      {
        var id :| id in rest;
        if workers[id].lastSeen < threshold {
          staleIDs := staleIDs + [id];
        }
        rest := rest - {id};
      }
      assert IdSet(staleIDs) == Stale(Abstract().live, threshold);
      DropAll(staleIDs);
    }

    method DropAll(staleIDs: seq<WorkerId>)
      requires Valid() && Distinct(staleIDs) && IdSet(staleIDs) <= workers.Keys
      modifies this`workers, conns
      ensures Valid()
      ensures Abstract() == Without(old(Abstract()), IdSet(staleIDs))
      ensures workers == old(workers) - IdSet(staleIDs)
    {
      hide Valid, Abstract, Without;
      ghost var before := Abstract();
      WithoutNothing(before);
      ConnsDiffer();
      for i := 0 to |staleIDs|
        invariant Valid()
        invariant forall j :: i <= j < |staleIDs| ==> staleIDs[j] in workers
        invariant Abstract() == Without(before, IdSet(staleIDs[..i]))
        invariant workers == old(workers) - IdSet(staleIDs[..i])
      {
        assert staleIDs[..i + 1] == staleIDs[..i] + [staleIDs[i]];
        WithoutOneMore(before, staleIDs[..i], staleIDs[i]);
        Drop(staleIDs[i]);
      }
      assert staleIDs[..|staleIDs|] == staleIDs;
    }

    lemma ConnsDiffer()
      requires Valid()
      ensures OwnConns(Abstract())
    {
    }
  }

  /** Different workers have different connections. */
  ghost predicate OwnConns(v: View) {
    forall id, id' :: id in v.live && id' in v.live && v.live[id].conn == v.live[id'].conn ==> id == id'
  }

  lemma WithoutNothing(v: View)
    ensures Without(v, IdSet([])) == v
  {
    assert ConnsOf(v.live, IdSet([])) == {};
  }

  lemma WithoutOneMore(v: View, ids: seq<WorkerId>, id: WorkerId)
    requires OwnConns(v) && id !in ids
    ensures Without(Without(v, IdSet(ids)), {id}) == Without(v, IdSet(ids + [id]))
  {
    var s := IdSet(ids);
    var live' := v.live - s;
    assert IdSet(ids + [id]) == s + {id};
    assert ConnsOf(v.live, s + {id}) == ConnsOf(v.live, s) + ConnsOf(live', {id});
    assert ConnsOf(v.live, s) !! ConnsOf(live', {id});
    assert v.live - s - {id} == v.live - (s + {id});
  }
}
