/** The worker agent's task loop, as a step relation.

    Threads: the receive loop, the sender goroutine, one goroutine per accepted
    assignment, and the thread running Shutdown.  Every step is one operation on a
    channel, an atomic or the wait group; any interleaving of enabled steps is a run.

    Assignment ids are all different and the stream is first in, first out, so an
    assignment is named here by its position in the stream. */
module AgentProtocol {
  import opened Ids
  import opened TaskEvents
  import opened Wrappers

  datatype LoopPc =
    | Polling                          // about to look at sendErrCh
    | Receiving                        // blocked in stream.Recv
    | Checking(id: AssignmentId)       // about to load the drain flag
    | Rejecting(id: AssignmentId)      // about to queue Rejected
    | Accepting(id: AssignmentId)      // about to queue Accepted
    | Adding(id: AssignmentId)         // about to add to the wait group
    | Spawning(id: AssignmentId)       // about to start the goroutine
    | Returned

  datatype TaskPc =
    | Started                          // about to take a semaphore token
    | Holding                          // about to count itself active
    | Executing
    | Reporting(status: ExecStatus)    // about to queue Result
    | Reported                         // about to count itself inactive
    | Uncounted                        // about to give the token back
    | Released                         // about to leave the wait group
    | Finished

  datatype SenderPc = Idle | Sending(event: Event) | Exited(lost: seq<Event>)

  datatype ShutdownPc = NotStarted | Waiting | Waited | Stopped

  datatype State = State(
    maxConcurrent: nat,
    issued: nat,                       // assignments the server has sent
    received: nat,                     // assignments the receive loop has taken
    loop: LoopPc,
    tasks: map<AssignmentId, TaskPc>,
    sender: SenderPc,
    shutdown: ShutdownPc,
    sendCh: seq<Event>,
    sendErr: bool,
    sem: nat,                          // tokens in the semaphore channel
    active: int,                       // activeTasks
    wg: int,                           // wait-group counter
    draining: bool,
    cancelled: bool,
    wire: seq<Event>,                  // sent by the agent, not yet read by the server
    handled: seq<Event>,               // read by the server
    // what happened so far
    cancelledElsewhere: bool,          // the context was cancelled by something other than Shutdown
    countedBefore: set<AssignmentId>,  // in the wait group when the drain flag was set
    pastCheck: Option<AssignmentId>,   // past the check at that moment, but not yet in the wait group
    foundFlag: set<AssignmentId>,      // assignments whose check found the flag set
    queuedSince: seq<Event>)           // events queued since the flag was set

  /** A non-positive limit means four. */
  function Normalize(maxConcurrent: int): nat {
    if maxConcurrent <= 0 then 4 else maxConcurrent
  }

  function Init(maxConcurrent: int): State {
    State(Normalize(maxConcurrent), 0, 0, Polling, map[], Idle, NotStarted, [], false, 0, 0, 0,
          false, false, [], [], false, {}, None, {}, [])
  }

  function Capacity(s: State): nat {
    s.maxConcurrent * 2
  }

  function Queue(s: State, e: Event): State {
    s.(sendCh := s.sendCh + [e],
       queuedSince := if s.draining then s.queuedSince + [e] else s.queuedSince)
  }

  // ----- steps; a step that is not enabled changes nothing

  datatype EnvOp = Assign | Handle | CancelElsewhere
  datatype LoopOp = Poll | Receive | ReceiveFails | Check | Put | GiveUp | Add | Spawn
  datatype TaskOp = Acquire | CountUp | Execute(status: ExecStatus) | Report | Abandon | CountDown | Release | Done
  datatype SenderOp = Take | Send | SendFails | Stop
  datatype ShutdownOp = SetDrain | WaitReturns | CancelAfterWait

  datatype Step =
    | Env(env: EnvOp)
    | Loop(loop: LoopOp)
    | Task(id: AssignmentId, task: TaskOp)
    | Sender(sender: SenderOp)
    | Shutdown(shutdown: ShutdownOp)

  function EnvStep(s: State, op: EnvOp): State {
    match op
    case Assign => s.(issued := s.issued + 1)
    case Handle =>
      if s.wire == [] then s else s.(handled := s.handled + [s.wire[0]], wire := s.wire[1..])
    case CancelElsewhere =>
      if s.cancelled then s else s.(cancelled := true, cancelledElsewhere := true)
  }

  function LoopStep(s: State, op: LoopOp): State {
    match op
    case Poll =>
      if !s.loop.Polling? then s
      else if s.sendErr then s.(sendErr := false, loop := Returned) else s.(loop := Receiving)
    case Receive =>
      if !s.loop.Receiving? || s.received == s.issued then s
      else s.(loop := Checking(s.received), received := s.received + 1)
    case ReceiveFails =>
      if s.loop.Receiving? then s.(loop := Returned) else s
    case Check =>
      if !s.loop.Checking? then s
      else if s.draining then s.(loop := Rejecting(s.loop.id), foundFlag := s.foundFlag + {s.loop.id})
      else s.(loop := Accepting(s.loop.id))
    case Put =>
      if |s.sendCh| >= Capacity(s) then s
      else if s.loop.Rejecting? then Queue(s, Event(s.loop.id, Rejected)).(loop := Polling)
      else if s.loop.Accepting? then Queue(s, Event(s.loop.id, Accepted)).(loop := Adding(s.loop.id))
      else s
    case GiveUp =>
      if s.cancelled && (s.loop.Rejecting? || s.loop.Accepting?) then s.(loop := Returned) else s
    case Add =>
      if s.loop.Adding? then s.(wg := s.wg + 1, loop := Spawning(s.loop.id)) else s
    case Spawn =>
      if s.loop.Spawning? then s.(tasks := s.tasks[s.loop.id := Started], loop := Polling) else s
  }

  function Stage(pc: TaskPc): nat {
    match pc
    case Started => 0
    case Holding => 1
    case Executing => 2
    case Reporting(_) => 3
    case Reported => 4
    case Uncounted => 5
    case Released => 6
    case Finished => 7
  }

  /** The operation goroutine `id` is about to do is `op`, and it would not block. */
  predicate Enabled(s: State, id: AssignmentId, op: TaskOp) {
    && id in s.tasks
    && match op
       case Acquire => s.tasks[id].Started? && s.sem < s.maxConcurrent
       case CountUp => s.tasks[id].Holding?
       case Execute(_) => s.tasks[id].Executing?
       case Report => s.tasks[id].Reporting? && |s.sendCh| < Capacity(s)
       case Abandon => s.tasks[id].Reporting? && s.cancelled
       case CountDown => s.tasks[id].Reported?
       case Release => s.tasks[id].Uncounted? && s.sem > 0
       case Done => s.tasks[id].Released?
  }

  function TaskStep(s: State, id: AssignmentId, op: TaskOp): State {
    if !Enabled(s, id, op) then s
    else
      match op
      case Acquire => s.(tasks := s.tasks[id := Holding], sem := s.sem + 1)
      case CountUp => s.(tasks := s.tasks[id := Executing], active := s.active + 1)
      case Execute(status) => s.(tasks := s.tasks[id := Reporting(status)])
      case Report => Queue(s, Event(id, Result(s.tasks[id].status))).(tasks := s.tasks[id := Reported])
      case Abandon => s.(tasks := s.tasks[id := Reported])
      case CountDown => s.(tasks := s.tasks[id := Uncounted], active := s.active - 1)
      case Release => s.(tasks := s.tasks[id := Released], sem := s.sem - 1)
      case Done => s.(tasks := s.tasks[id := Finished], wg := s.wg - 1)
  }

  function SenderStep(s: State, op: SenderOp): State {
    match op
    case Take =>
      if s.sender.Idle? && s.sendCh != [] then s.(sender := Sending(s.sendCh[0]), sendCh := s.sendCh[1..]) else s
    case Send =>
      if s.sender.Sending? then s.(wire := s.wire + [s.sender.event], sender := Idle) else s
    case SendFails =>
      if s.sender.Sending? then s.(sendErr := true, sender := Exited([s.sender.event])) else s
    case Stop =>
      if s.sender.Idle? && s.cancelled then s.(sender := Exited([])) else s
  }

  function ShutdownStep(s: State, op: ShutdownOp): State {
    match op
    case SetDrain =>
      if s.shutdown.NotStarted? then
        s.(draining := true, shutdown := Waiting,
           countedBefore := s.tasks.Keys + if s.loop.Spawning? then {s.loop.id} else {},
           pastCheck := if s.loop.Accepting? || s.loop.Adding? then Some(s.loop.id) else None)
      else s
    case WaitReturns =>
      if s.shutdown.Waiting? && s.wg == 0 then s.(shutdown := Waited) else s
    case CancelAfterWait =>
      if s.shutdown.Waited? then s.(shutdown := Stopped, cancelled := true) else s
  }

  function Next(s: State, l: Step): State {
    match l
    case Env(op) => EnvStep(s, op)
    case Loop(op) => LoopStep(s, op)
    case Task(id, op) => TaskStep(s, id, op)
    case Sender(op) => SenderStep(s, op)
    case Shutdown(op) => ShutdownStep(s, op)
  }

  function RunFrom(s: State, steps: seq<Step>): State {
    if steps == [] then s else Next(RunFrom(s, steps[..|steps| - 1]), steps[|steps| - 1])
  }

  /** The state after a sequence of steps from a fresh agent. */
  function Run(maxConcurrent: int, steps: seq<Step>): State {
    RunFrom(Init(maxConcurrent), steps)
  }

  // ----- counters

  /** The goroutines at a stage in [lo, hi). */
  function Between(tasks: map<AssignmentId, TaskPc>, lo: nat, hi: nat): set<AssignmentId> {
    set t | t in tasks && lo <= Stage(tasks[t]) < hi
  }

  lemma DifferAtOne(a: set<AssignmentId>, b: set<AssignmentId>, id: AssignmentId)
    requires a - {id} == b - {id}
    ensures |b| == |a| - (if id in a then 1 else 0) + (if id in b then 1 else 0)
  {
    assert a == (a - {id}) + (if id in a then {id} else {});
    assert b == (b - {id}) + (if id in b then {id} else {});
  }

  lemma MoveOne(tasks: map<AssignmentId, TaskPc>, id: AssignmentId, pc: TaskPc, lo: nat, hi: nat)
    ensures |Between(tasks[id := pc], lo, hi)| ==
            |Between(tasks, lo, hi)|
            - (if id in tasks && lo <= Stage(tasks[id]) < hi then 1 else 0)
            + (if lo <= Stage(pc) < hi then 1 else 0)
  {
    var before, after := Between(tasks, lo, hi), Between(tasks[id := pc], lo, hi);
    assert forall t :: t != id ==> (t in before <==> t in after);
    assert before - {id} == after - {id};
    DifferAtOne(before, after, id);
  }

  /** Tokens are held from Acquire to Release, the active count covers execution and
      reporting, and the wait group covers each goroutine from before its start to its end. */
  predicate CountsAgree(s: State) {
    && s.sem == |Between(s.tasks, 1, 6)|
    && s.active == |Between(s.tasks, 2, 5)|
    && s.wg == |Between(s.tasks, 0, 7)| + (if s.loop.Spawning? then 1 else 0)
    && s.sem <= s.maxConcurrent
    && |s.sendCh| <= Capacity(s)
  }

  lemma TaskStepKeepsCounts(s: State, id: AssignmentId, op: TaskOp)
    requires CountsAgree(s)
    ensures CountsAgree(TaskStep(s, id, op))
  {
    if Enabled(s, id, op) {
      var pc := TaskStep(s, id, op).tasks[id];
      MoveOne(s.tasks, id, pc, 1, 6);
      MoveOne(s.tasks, id, pc, 2, 5);
      MoveOne(s.tasks, id, pc, 0, 7);
    }
  }

  lemma LoopStepKeepsCounts(s: State, op: LoopOp)
    requires CountsAgree(s) && Identified(s)
    ensures CountsAgree(LoopStep(s, op))
  {
    hide Between;
    if op.Spawn? && s.loop.Spawning? {
      MoveOne(s.tasks, s.loop.id, Started, 1, 6);
      MoveOne(s.tasks, s.loop.id, Started, 2, 5);
      MoveOne(s.tasks, s.loop.id, Started, 0, 7);
    }
  }

  // ----- identities: each assignment is in one place

  /** The receive loop is working on an assignment. */
  predicate Carrying(s: State) {
    !s.loop.Polling? && !s.loop.Receiving? && !s.loop.Returned?
  }

  ghost predicate Identified(s: State) {
    && s.received <= s.issued
    && (Carrying(s) ==> s.loop.id == s.received - 1 && s.loop.id !in s.tasks)
    && (forall id :: id in s.tasks ==> id < s.received)
    && (forall id :: id in s.foundFlag ==> id < s.received && id !in s.tasks)
    && (Carrying(s) && s.loop.id in s.foundFlag ==> s.loop.Rejecting?)
  }

  // ----- what each thread leaves alone

  lemma TaskStepFrame(s: State, id: AssignmentId, op: TaskOp)
    ensures var s' := TaskStep(s, id, op);
      s' == s.(tasks := s'.tasks, sem := s'.sem, active := s'.active, wg := s'.wg,
               sendCh := s'.sendCh, queuedSince := s'.queuedSince)
  {
  }

  lemma TaskStepKeepsKeys(s: State, id: AssignmentId, op: TaskOp)
    ensures forall t :: t in TaskStep(s, id, op).tasks <==> t in s.tasks
    ensures forall t :: t in s.tasks && t != id ==> TaskStep(s, id, op).tasks[t] == s.tasks[t]
  {
    TaskStepMovesOne(s, id, op);
    hide TaskStep;
  }

  lemma TaskStepMovesOne(s: State, id: AssignmentId, op: TaskOp)
    ensures var s' := TaskStep(s, id, op);
      s'.tasks == s.tasks || (id in s.tasks && id in s'.tasks && s'.tasks == s.tasks[id := s'.tasks[id]])
  {
  }

  lemma EnvStepFrame(s: State, op: EnvOp)
    ensures var s' := EnvStep(s, op);
      && s' == s.(issued := s'.issued, handled := s'.handled, wire := s'.wire,
                  cancelled := s'.cancelled, cancelledElsewhere := s'.cancelledElsewhere)
      && s.issued <= s'.issued && (s.cancelledElsewhere ==> s'.cancelledElsewhere)
  {
  }

  lemma SenderStepFrame(s: State, op: SenderOp)
    ensures var s' := SenderStep(s, op);
      && s' == s.(sender := s'.sender, sendCh := s'.sendCh, sendErr := s'.sendErr, wire := s'.wire)
      && |s'.sendCh| <= |s.sendCh|
  {
  }

  lemma ShutdownStepFrame(s: State, op: ShutdownOp)
    ensures var s' := ShutdownStep(s, op);
      s' == s.(shutdown := s'.shutdown, draining := s'.draining, cancelled := s'.cancelled,
               countedBefore := s'.countedBefore, pastCheck := s'.pastCheck)
  {
  }

  lemma LoopStepKeepsIdentities(s: State, op: LoopOp)
    requires Identified(s)
    ensures Identified(LoopStep(s, op))
  {
  }

  lemma OtherStepsKeepIdentities(s: State, l: Step)
    requires Identified(s) && !l.Loop? && !l.Task?
    ensures Identified(Next(s, l))
  {
    match l
    case Env(op) => EnvStepFrame(s, op); hide EnvStep;
    case Sender(op) => SenderStepFrame(s, op); hide SenderStep;
    case Shutdown(op) => ShutdownStepFrame(s, op); hide ShutdownStep;
  }

  lemma {:induction false} NextKeepsIdentities(s: State, l: Step)
    requires Identified(s)
    ensures Identified(Next(s, l))
  {
    if l.Loop? {
      LoopStepKeepsIdentities(s, l.loop);
    } else if l.Task? {
      TaskStepFrame(s, l.id, l.task);
      TaskStepKeepsKeys(s, l.id, l.task);
      hide TaskStep;
    } else {
      OtherStepsKeepIdentities(s, l);
    }
  }

  lemma {:induction false} OtherStepsKeepCounts(s: State, l: Step)
    requires CountsAgree(s) && !l.Loop? && !l.Task?
    ensures CountsAgree(Next(s, l))
  {
    match l
    case Env(op) => EnvStepFrame(s, op); hide EnvStep;
    case Sender(op) => SenderStepFrame(s, op); hide SenderStep;
    case Shutdown(op) => ShutdownStepFrame(s, op); hide ShutdownStep;
  }

  lemma NextKeepsCounts(s: State, l: Step)
    requires CountsAgree(s) && Identified(s)
    ensures CountsAgree(Next(s, l))
  {
    if l.Loop? {
      LoopStepKeepsCounts(s, l.loop);
    } else if l.Task? {
      TaskStepKeepsCounts(s, l.id, l.task);
    } else {
      OtherStepsKeepCounts(s, l);
    }
  }

  // ----- events

  function InHand(pc: SenderPc): seq<Event> {
    match pc
    case Idle => []
    case Sending(e) => [e]
    case Exited(lost) => lost
  }

  /** Everything ever queued, in order: what the server has read, what is on its way,
      what the sender holds, and what waits in the channel. */
  function All(s: State): seq<Event> {
    s.handled + s.wire + InHand(s.sender) + s.sendCh
  }

  /** The events a step queues. */
  function Queued(s: State, l: Step): (q: seq<Event>)
    ensures |q| <= 1
  {
    if l.Loop? && l.loop.Put? && |s.sendCh| < Capacity(s) then
      if s.loop.Rejecting? then [Event(s.loop.id, Rejected)]
      else if s.loop.Accepting? then [Event(s.loop.id, Accepted)]
      else []
    else if l.Task? && l.task.Report? && Enabled(s, l.id, Report) then
      [Event(l.id, Result(s.tasks[l.id].status))]
    else []
  }

  lemma {:induction false} LoopStepQueues(s: State, op: LoopOp)
    ensures All(LoopStep(s, op)) == All(s) + Queued(s, Loop(op))
  {
    hide All;
    assert All(s) + [] == All(s);
    if op.Put? {
      AllQueue(s, Event(if Carrying(s) then s.loop.id else 0, if s.loop.Rejecting? then Rejected else Accepted), LoopStep(s, op).loop);
    } else {
      AllIsEvents(s, LoopStep(s, op));
    }
  }

  lemma AllIsEvents(s: State, s': State)
    requires s'.handled == s.handled && s'.wire == s.wire && s'.sender == s.sender && s'.sendCh == s.sendCh
    ensures All(s') == All(s)
  {
  }

  lemma AllQueue(s: State, e: Event, pc: LoopPc)
    ensures All(Queue(s, e).(loop := pc)) == All(s) + [e]
  {
  }

  lemma TaskStepQueues(s: State, id: AssignmentId, op: TaskOp)
    ensures All(TaskStep(s, id, op)) == All(s) + Queued(s, Task(id, op))
  {
    TaskStepFrame(s, id, op);
    if !op.Report? || !Enabled(s, id, op) {
      assert TaskStep(s, id, op).sendCh == s.sendCh;
    }
  }

  lemma EnvStepQueuesNothing(s: State, op: EnvOp)
    ensures All(EnvStep(s, op)) == All(s)
  {
  }

  lemma SenderStepQueuesNothing(s: State, op: SenderOp)
    ensures All(SenderStep(s, op)) == All(s)
  {
  }

  lemma {:induction false} OtherStepsQueueNothing(s: State, l: Step)
    requires !l.Loop? && !l.Task?
    ensures Queued(s, l) == []
    ensures All(Next(s, l)) == All(s)
  {
    match l
    case Env(op) => EnvStepQueuesNothing(s, op);
    case Sender(op) => SenderStepQueuesNothing(s, op);
    case Shutdown(op) =>
  }

  lemma {:induction false} NextQueues(s: State, l: Step)
    ensures All(Next(s, l)) == All(s) + Queued(s, l)
  {
    if l.Loop? {
      LoopStepQueues(s, l.loop);
    } else if l.Task? {
      TaskStepQueues(s, l.id, l.task);
    } else {
      OtherStepsQueueNothing(s, l);
      assert All(s) + [] == All(s);
      hide All;
    }
  }

  predicate IsReported(p: seq<Payload>) {
    |p| == 2 && p[0] == Accepted && p[1].Result?
  }

  /** What may have been queued about `id`, given where the assignment is. */
  predicate Fits(s: State, id: AssignmentId, p: seq<Payload>) {
    if id in s.tasks then
      if Stage(s.tasks[id]) < 4 then p == [Accepted]
      else IsReported(p) || (p == [Accepted] && s.cancelled)
    else if Carrying(s) && s.loop.id == id then
      if s.loop.Adding? || s.loop.Spawning? then p == [Accepted] else p == []
    else
      p == [] || (p == [Rejected] && id < s.received)
  }

  function Told(q: seq<Event>, id: AssignmentId): seq<Payload>
    requires |q| <= 1
  {
    if q != [] && q[0].id == id then [q[0].payload] else []
  }

  lemma LoopStepFits(s: State, op: LoopOp, id: AssignmentId, p: seq<Payload>)
    requires Identified(s) && Fits(s, id, p)
    ensures Fits(LoopStep(s, op), id, p + Told(Queued(s, Loop(op)), id))
  {
    assert p + [] == p;
    if op.Put? {
      PutFits(s, id, p);
    } else {
      hide Queue, IsReported, Capacity;
    }
  }

  lemma PutFits(s: State, id: AssignmentId, p: seq<Payload>)
    requires Identified(s) && Fits(s, id, p)
    ensures Fits(LoopStep(s, Put), id, p + Told(Queued(s, Loop(Put)), id))
  {
    assert p + [] == p;
    hide IsReported, Stage;
  }

  lemma TaskStepFits(s: State, t: AssignmentId, op: TaskOp, id: AssignmentId, p: seq<Payload>)
    requires Fits(s, id, p)
    ensures Fits(TaskStep(s, t, op), id, p + Told(Queued(s, Task(t, op)), id))
  {
    TaskStepFrame(s, t, op);
    TaskStepKeepsKeys(s, t, op);
    assert p + [] == p;
    if id != t {
      hide TaskStep;
    }
  }

  lemma OtherStepsFit(s: State, l: Step, id: AssignmentId, p: seq<Payload>)
    requires Fits(s, id, p) && !l.Loop? && !l.Task?
    ensures Fits(Next(s, l), id, p)
  {
    match l
    case Env(op) => EnvStepFrame(s, op);
    case Sender(op) => SenderStepFrame(s, op); hide SenderStep;
    case Shutdown(op) => ShutdownStepFrame(s, op);
  }

  lemma NextTells(s: State, l: Step, id: AssignmentId)
    ensures About(All(Next(s, l)), id) == About(All(s), id) + Told(Queued(s, l), id)
  {
    var p, q := About(All(s), id), Queued(s, l);
    NextQueues(s, l);
    hide All, Next, Queued;
    if q == [] {
      assert All(s) + q == All(s);
    } else {
      AboutSnoc(All(s), q[0], id);
      assert q == [q[0]];
    }
  }

  lemma NextFits(s: State, l: Step, id: AssignmentId)
    requires Identified(s) && Fits(s, id, About(All(s), id))
    ensures Fits(Next(s, l), id, About(All(Next(s, l)), id))
  {
    hide Identified, Fits, All, About, Queued, LoopStep, TaskStep, EnvStep, SenderStep, ShutdownStep;
    var p := About(All(s), id);
    NextTells(s, l, id);
    if l.Loop? {
      LoopStepFits(s, l.loop, id, p);
    } else if l.Task? {
      TaskStepFits(s, l.id, l.task, id, p);
    } else {
      OtherStepsFit(s, l, id, p);
      OtherStepsQueueNothing(s, l);
      assert p + [] == p;
    }
  }

  // ----- draining

  function AcceptedIn(events: seq<Event>): seq<AssignmentId> {
    if events == [] then []
    else
      var rest := AcceptedIn(events[..|events| - 1]);
      var e := events[|events| - 1];
      if e.payload.Accepted? then rest + [e.id] else rest
  }

  lemma AcceptedInSnoc(events: seq<Event>, e: Event)
    ensures AcceptedIn(events + [e]) == AcceptedIn(events) + if e.payload.Accepted? then [e.id] else []
  {
    assert (events + [e])[..|events|] == events;
  }

  /** Since the flag was set, only the assignment that was past the check has been accepted. */
  predicate DrainHolds(s: State) {
    && (s.draining <==> !s.shutdown.NotStarted?)
    && (!s.draining ==> s.queuedSince == [] && s.foundFlag == {})
    && (AcceptedIn(s.queuedSince) == [] || (s.pastCheck.Some? && AcceptedIn(s.queuedSince) == [s.pastCheck.value]))
    && (s.draining && s.loop.Accepting? ==> s.pastCheck == Some(s.loop.id) && AcceptedIn(s.queuedSince) == [])
    && (s.cancelled ==> s.cancelledElsewhere || s.shutdown.Stopped?)
  }

  lemma LoopStepKeepsDrain(s: State, op: LoopOp)
    requires DrainHolds(s)
    ensures DrainHolds(LoopStep(s, op))
  {
    hide AcceptedIn;
    if op.Put? && s.draining && s.loop.Rejecting? {
      AcceptedInSnoc(s.queuedSince, Event(s.loop.id, Rejected));
    } else if op.Put? && s.draining && s.loop.Accepting? {
      AcceptedInSnoc(s.queuedSince, Event(s.loop.id, Accepted));
    }
  }

  lemma TaskStepKeepsDrain(s: State, id: AssignmentId, op: TaskOp)
    requires DrainHolds(s)
    ensures DrainHolds(TaskStep(s, id, op))
  {
    TaskStepFrame(s, id, op);
    if op.Report? && Enabled(s, id, op) {
      AcceptedInSnoc(s.queuedSince, Event(id, Result(s.tasks[id].status)));
      hide AcceptedIn;
    } else {
      hide AcceptedIn;
      assert TaskStep(s, id, op).queuedSince == s.queuedSince;
    }
  }

  lemma OtherStepsKeepDrain(s: State, l: Step)
    requires DrainHolds(s) && !l.Loop? && !l.Task?
    ensures DrainHolds(Next(s, l))
  {
    hide AcceptedIn;
    match l
    case Env(op) =>
    case Sender(op) => SenderStepFrame(s, op); hide SenderStep;
    case Shutdown(op) =>
      assert s.queuedSince == [] ==> AcceptedIn(s.queuedSince) == [] by { AcceptedInNothing(); }
  }

  lemma AcceptedInNothing()
    ensures AcceptedIn([]) == []
  {
  }

  lemma {:induction false} NextKeepsDrain(s: State, l: Step)
    requires DrainHolds(s)
    ensures DrainHolds(Next(s, l))
  {
    hide DrainHolds, LoopStep, TaskStep;
    if l.Loop? {
      LoopStepKeepsDrain(s, l.loop);
    } else if l.Task? {
      TaskStepKeepsDrain(s, l.id, l.task);
    } else {
      OtherStepsKeepDrain(s, l);
    }
  }

  /** No assignment is dropped: once the receive loop is done with one, something has been
      queued about it, unless the cancelled context made the loop leave; and Rejected only
      ever goes to those whose check found the flag set. */
  predicate Answers(s: State, id: AssignmentId, p: seq<Payload>) {
    && (id < s.received && !(Carrying(s) && s.loop.id == id) ==> p != [] || s.cancelled)
    && (p == [Rejected] ==> id in s.foundFlag)
    && (s.loop.Rejecting? ==> s.loop.id in s.foundFlag)
  }

  lemma LoopStepAnswers(s: State, op: LoopOp, id: AssignmentId, p: seq<Payload>)
    requires Identified(s) && Fits(s, id, p) && Answers(s, id, p)
    ensures Answers(LoopStep(s, op), id, p + Told(Queued(s, Loop(op)), id))
  {
    assert p + [] == p;
    if op.Put? {
      PutAnswers(s, id, p);
    } else {
      hide Queue, IsReported, Capacity, Stage;
    }
  }

  lemma PutAnswers(s: State, id: AssignmentId, p: seq<Payload>)
    requires Identified(s) && Fits(s, id, p) && Answers(s, id, p)
    ensures Answers(LoopStep(s, Put), id, p + Told(Queued(s, Loop(Put)), id))
  {
    assert p + [] == p;
    assert p == [] ==> (p + [Accepted])[0] == Accepted;
    hide IsReported, Stage;
  }

  lemma TaskStepAnswers(s: State, t: AssignmentId, op: TaskOp, id: AssignmentId, p: seq<Payload>)
    requires Fits(s, id, p) && Answers(s, id, p)
    ensures Answers(TaskStep(s, t, op), id, p + Told(Queued(s, Task(t, op)), id))
  {
    hide TaskStep;
    TaskStepFrame(s, t, op);
    assert p + [] == p;
  }

  lemma {:induction false} NextAnswers(s: State, l: Step, id: AssignmentId)
    requires Identified(s) && Fits(s, id, About(All(s), id)) && Answers(s, id, About(All(s), id))
    ensures Answers(Next(s, l), id, About(All(Next(s, l)), id))
  {
    hide Identified, Fits, All, About, Queued, LoopStep, TaskStep, EnvStep, SenderStep, ShutdownStep;
    var p := About(All(s), id);
    NextTells(s, l, id);
    match l
    case Loop(op) => LoopStepAnswers(s, op, id, p);
    case Task(t, op) => TaskStepAnswers(s, t, op, id, p);
    case Env(op) => EnvStepFrame(s, op); OtherStepsQueueNothing(s, l); CancelledStays(s, l); assert p + [] == p;
    case Sender(op) => SenderStepFrame(s, op); OtherStepsQueueNothing(s, l); assert p + [] == p;
    case Shutdown(op) => ShutdownStepFrame(s, op); OtherStepsQueueNothing(s, l); CancelledStays(s, l); assert p + [] == p;
  }

  lemma CancelledStays(s: State, l: Step)
    requires l.Env? || l.Shutdown?
    ensures s.cancelled ==> Next(s, l).cancelled
  {
  }

  // ----- what Shutdown waits for

  /** Assignment `id` was accepted and its result is queued. */
  predicate HasResult(s: State, id: AssignmentId) {
    IsReported(About(All(s), id))
  }

  /** Once the wait is over, every assignment counted before the flag has its result
      queued; and any other started goroutine belongs to the one assignment in between. */
  ghost predicate Awaited(s: State, id: AssignmentId) {
    && (id in s.countedBefore ==> id in s.tasks || (s.loop.Spawning? && s.loop.id == id))
    && (s.draining && (id in s.tasks || ((s.loop.Adding? || s.loop.Spawning?) && s.loop.id == id)) ==>
          id in s.countedBefore || s.pastCheck == Some(id))
    && ((s.shutdown.Waited? || s.shutdown.Stopped?) && !s.cancelledElsewhere && id in s.countedBefore ==>
          id in s.tasks && HasResult(s, id))
  }

  lemma {:induction false} NextKeepsResults(s: State, l: Step, id: AssignmentId)
    requires Identified(s) && Fits(s, id, About(All(s), id))
    requires id in s.tasks && HasResult(s, id)
    ensures id in Next(s, l).tasks && HasResult(Next(s, l), id)
  {
    hide About, All;
    hide Queued;
    NextFits(s, l, id);
    NextQueues(s, l);
    AboutPrefix(All(s), All(Next(s, l)), id);
    if l.Task? {
      TaskStepKeepsKeys(s, l.id, l.task);
      hide TaskStep;
    }
  }

  lemma EmptyWaitGroup(s: State)
    requires CountsAgree(s) && s.wg == 0
    ensures !s.loop.Spawning?
    ensures forall id :: id in s.tasks ==> s.tasks[id].Finished?
  {
    forall id | id in s.tasks
      ensures s.tasks[id].Finished?
    {
      assert id !in Between(s.tasks, 0, 7);
    }
  }

  lemma LoopStepKeepsAwaited(s: State, op: LoopOp, id: AssignmentId)
    requires Identified(s) && DrainHolds(s) && Fits(s, id, About(All(s), id)) && Awaited(s, id)
    ensures Awaited(LoopStep(s, op), id)
  {
    hide HasResult, AcceptedIn, Fits, About, All;
    if id in s.tasks && HasResult(s, id) {
      NextKeepsResults(s, Loop(op), id);
    }
  }

  lemma TaskStepKeepsAwaited(s: State, t: AssignmentId, op: TaskOp, id: AssignmentId)
    requires Identified(s) && Fits(s, id, About(All(s), id)) && Awaited(s, id)
    ensures Awaited(TaskStep(s, t, op), id)
  {
    hide HasResult, Fits, About, All, TaskStep;
    if id in s.tasks && HasResult(s, id) {
      NextKeepsResults(s, Task(t, op), id);
    }
    TaskStepFrame(s, t, op);
    TaskStepKeepsKeys(s, t, op);
  }

  lemma ShutdownStepKeepsAwaited(s: State, op: ShutdownOp, id: AssignmentId)
    requires CountsAgree(s) && DrainHolds(s) && Fits(s, id, About(All(s), id)) && Awaited(s, id)
    ensures Awaited(ShutdownStep(s, op), id)
  {
    hide AcceptedIn, About, All, CountsAgree, Queued, Between;
    OtherStepsQueueNothing(s, Shutdown(op));
    if op.WaitReturns? && s.shutdown.Waiting? && s.wg == 0 {
      EmptyWaitGroup(s);
    }
  }

  lemma OtherStepsKeepAwaited(s: State, l: Step, id: AssignmentId)
    requires !l.Loop? && !l.Task?
    requires CountsAgree(s) && DrainHolds(s) && Fits(s, id, About(All(s), id)) && Awaited(s, id)
    ensures Awaited(Next(s, l), id)
  {
    hide AcceptedIn, About, All, CountsAgree, DrainHolds, Fits, Queued, EnvStep, SenderStep, ShutdownStep;
    OtherStepsQueueNothing(s, l);
    match l
    case Env(op) => EnvStepFrame(s, op);
    case Sender(op) => SenderStepFrame(s, op);
    case Shutdown(op) => ShutdownStepKeepsAwaited(s, op, id); hide Awaited;
  }

  lemma NextKeepsAwaited(s: State, l: Step, id: AssignmentId)
    requires CountsAgree(s) && Identified(s) && DrainHolds(s) && Fits(s, id, About(All(s), id)) && Awaited(s, id)
    ensures Awaited(Next(s, l), id)
  {
    hide CountsAgree, Identified, DrainHolds, Fits, Awaited, About, All, LoopStep, TaskStep;
    if l.Loop? {
      LoopStepKeepsAwaited(s, l.loop, id);
    } else if l.Task? {
      TaskStepKeepsAwaited(s, l.id, l.task, id);
    } else {
      OtherStepsKeepAwaited(s, l, id);
    }
  }

  // ----- every run

  lemma {:induction false} EveryRunHolds(maxConcurrent: int, steps: seq<Step>, id: AssignmentId)
    ensures var s := Run(maxConcurrent, steps);
      && CountsAgree(s) && Identified(s) && DrainHolds(s)
      && Fits(s, id, About(All(s), id)) && Answers(s, id, About(All(s), id)) && Awaited(s, id)
      && s.maxConcurrent == Normalize(maxConcurrent)
    decreases |steps|
  {
    if steps == [] {
    } else {
      var s, l := Run(maxConcurrent, steps[..|steps| - 1]), steps[|steps| - 1];
      EveryRunHolds(maxConcurrent, steps[..|steps| - 1], id);
      NextKeepsLimit(s, l);
      hide CountsAgree, Identified, DrainHolds, Fits, Answers, Awaited, About, All, Next;
      NextKeepsIdentities(s, l);
      NextKeepsCounts(s, l);
      NextKeepsDrain(s, l);
      NextFits(s, l, id);
      NextAnswers(s, l, id);
      NextKeepsAwaited(s, l, id);
    }
  }

  lemma {:induction false} NextKeepsLimit(s: State, l: Step)
    ensures Next(s, l).maxConcurrent == s.maxConcurrent
  {
    match l
    case Task(id, op) => TaskStepFrame(s, id, op);
    case Env(op) => EnvStepFrame(s, op);
    case Sender(op) => SenderStepFrame(s, op);
    case Shutdown(op) => ShutdownStepFrame(s, op);
    case Loop(_) =>
  }

  /** In every run the load stays within the limit: goroutines counted active hold tokens,
      tokens never exceed the limit, and the wait group counts exactly the goroutines
      between its Add and its Done, however many assignments arrive. */
  lemma LoadStaysBounded(maxConcurrent: int, steps: seq<Step>)
    ensures var s, limit := Run(maxConcurrent, steps), if maxConcurrent <= 0 then 4 else maxConcurrent;
      && 0 <= s.active <= s.sem <= limit
      && |s.sendCh| <= 2 * limit
      && s.wg == |set t | t in s.tasks && !s.tasks[t].Finished?| + if s.loop.Spawning? then 1 else 0
  {
    hide Run;
    EveryRunHolds(maxConcurrent, steps, 0);
    var s := Run(maxConcurrent, steps);
    SubsetSize(Between(s.tasks, 2, 5), Between(s.tasks, 1, 6));
    assert Between(s.tasks, 0, 7) == set t | t in s.tasks && !s.tasks[t].Finished?;
  }

  lemma SubsetSize(a: set<AssignmentId>, b: set<AssignmentId>)
    requires a <= b
    ensures |a| <= |b|
  {
    assert b == a + (b - a);
  }

  /** In every run, what has been sent about an assignment is a prefix of [Rejected] or of
      [Accepted, Result], so what the server has written for it is a prefix of [Pending],
      [Running, Completed] or [Running, Failed]. */
  lemma {:induction false} EventsOfOneAssignment(maxConcurrent: int, steps: seq<Step>, id: AssignmentId)
    ensures var s := Run(maxConcurrent, steps);
      && IsLifecycle(About(s.handled + s.wire, id))
      && IsStatusHistory(Statuses(About(s.handled, id)))
      && About(s.handled, id) <= About(s.handled + s.wire, id) <= About(All(s), id)
  {
    EveryRunHolds(maxConcurrent, steps, id);
    var s := Run(maxConcurrent, steps);
    assert s.handled + s.wire <= All(s);
    AboutPrefix(s.handled + s.wire, All(s), id);
    AboutPrefix(s.handled, s.handled + s.wire, id);
    PrefixOfLifecycle(About(s.handled + s.wire, id), About(All(s), id));
    PrefixOfLifecycle(About(s.handled, id), About(All(s), id));
    LifecycleWritesStatusHistory(About(s.handled, id));
  }

  lemma PrefixOfLifecycle(p: seq<Payload>, q: seq<Payload>)
    requires p <= q && IsLifecycle(q)
    ensures IsLifecycle(p)
  {
  }

  /** After the drain flag is set at most one more assignment is accepted, the one that was
      past the check.  One whose check finds the flag is rejected, and told nothing else,
      unless the context ends while its rejection waits for the send channel; no other
      assignment is rejected. */
  lemma {:induction false} DrainRejectsTheRest(maxConcurrent: int, steps: seq<Step>, id: AssignmentId)
    ensures var s := Run(maxConcurrent, steps);
      && |AcceptedIn(s.queuedSince)| <= 1
      && (id in AcceptedIn(s.queuedSince) ==> s.pastCheck == Some(id))
      && (id in s.foundFlag ==>
            || About(All(s), id) == [Rejected]
            || (About(All(s), id) == [] && (s.loop == Rejecting(id) || s.cancelled)))
      && (Rejected in About(All(s), id) ==> id in s.foundFlag)
  {
    hide Run, About, All, AcceptedIn, CountsAgree, Awaited;
    EveryRunHolds(maxConcurrent, steps, id);
  }

  /** Until the context ends, every assignment the receive loop has finished with has been
      accepted or rejected. */
  lemma {:induction false} NoAssignmentIsDropped(maxConcurrent: int, steps: seq<Step>, id: AssignmentId)
    requires var s := Run(maxConcurrent, steps);
      !s.cancelled && id < s.received && !(Carrying(s) && s.loop.id == id)
    ensures var s := Run(maxConcurrent, steps);
      if id in s.foundFlag then About(All(s), id) == [Rejected] else Accepted in About(All(s), id)
  {
    hide Run, About, All, AcceptedIn, CountsAgree, Awaited;
    EveryRunHolds(maxConcurrent, steps, id);
  }

  /** Unless something else cancelled the context, Shutdown cancels it only after every
      assignment counted before the flag has its result queued; of all accepted assignments
      only the one that was past the check but not yet counted can be missing its result. */
  lemma ShutdownWaitsForResults(maxConcurrent: int, steps: seq<Step>, id: AssignmentId)
    requires var s := Run(maxConcurrent, steps); (s.shutdown.Waited? || s.shutdown.Stopped?) && !s.cancelledElsewhere
    ensures var s := Run(maxConcurrent, steps);
      && (id in s.countedBefore ==> HasResult(s, id))
      && (Accepted in About(All(s), id) && s.pastCheck != Some(id) ==> HasResult(s, id))
  {
    hide Run, About, All, CountsAgree, Identified;
    EveryRunHolds(maxConcurrent, steps, id);
  }

  /** Which accepted assignment is missed, exactly: when the wait can end, and nothing has
      cancelled the context, an accepted assignment is without its result if and only if the
      receive loop has yet to add it to the wait group. */
  lemma {:induction false} WaitMissesExactlyTheUncounted(maxConcurrent: int, steps: seq<Step>, id: AssignmentId)
    requires var s := Run(maxConcurrent, steps); s.shutdown.Waiting? && s.wg == 0 && !s.cancelled
    ensures var s := Run(maxConcurrent, steps);
      Accepted in About(All(s), id) ==> (!HasResult(s, id) <==> s.loop == Adding(id))
  {
    hide Run, About, All, CountsAgree, Awaited, Answers, DrainHolds;
    EveryRunHolds(maxConcurrent, steps, id);
    EmptyWaitGroup(Run(maxConcurrent, steps));
  }

  ghost predicate Reachable(s: State) {
    exists steps :: Run(1, steps) == s
  }

  lemma Do(s: State, l: Step) returns (s': State)
    requires Reachable(s)
    ensures Reachable(s') && s' == Next(s, l)
  {
    var steps :| Run(1, steps) == s;
    assert (steps + [l])[..|steps|] == steps;
    s' := Run(1, steps + [l]);
  }

  /** The assignment is past the check when the flag is set, and the wait finds nothing to wait for. */
  function StoppedWhileAccepting(): State {
    Init(1).(issued := 1, received := 1, loop := Accepting(0), shutdown := Stopped,
             draining := true, cancelled := true, pastCheck := Some(0))
  }

  lemma ReachStoppedWhileAccepting()
    ensures Reachable(StoppedWhileAccepting())
  {
    assert Run(1, []) == Init(1);
    assert Reachable(Init(1));
    hide Reachable, TaskStep, SenderStep;
    var s := Do(Init(1), Env(Assign));
    s := Do(s, Loop(Poll));
    s := Do(s, Loop(Receive));
    s := Do(s, Loop(Check));
    s := Do(s, Shutdown(SetDrain));
    s := Do(s, Shutdown(WaitReturns));
    s := Do(s, Shutdown(CancelAfterWait));
  }

  /** The goroutine started after that point. */
  function StartedTooLate(pc: TaskPc, sem: nat, active: int): State {
    var e := Event(0, Accepted);
    StoppedWhileAccepting().(loop := Polling, sendCh := [e], queuedSince := [e], wg := 1,
                             tasks := map[0 := pc], sem := sem, active := active)
  }

  lemma ReachStartedTooLate()
    ensures Reachable(StartedTooLate(Started, 0, 0))
  {
    hide Reachable, TaskStep, EnvStep, SenderStep, ShutdownStep;
    ReachStoppedWhileAccepting();
    var s := Do(StoppedWhileAccepting(), Loop(Put));
    s := Do(s, Loop(Add));
    s := Do(s, Loop(Spawn));
    assert [] + [Event(0, Accepted)] == [Event(0, Accepted)];
    assert s.tasks == map[0 := Started];
    assert s == StartedTooLate(Started, 0, 0);
  }

  lemma TooLateMoves(pc: TaskPc, sem: nat, active: int, op: TaskOp, pc': TaskPc, sem': nat, active': int)
    requires Reachable(StartedTooLate(pc, sem, active))
    requires var s := StartedTooLate(pc, sem, active);
      && Enabled(s, 0, op) && !op.Report? && !op.Done?
      && TaskStep(s, 0, op).tasks[0] == pc' && TaskStep(s, 0, op).sem == sem' && TaskStep(s, 0, op).active == active'
    ensures Reachable(StartedTooLate(pc', sem', active'))
  {
    var s := StartedTooLate(pc, sem, active);
    var s' := Do(s, Task(0, op));
    TaskStepKeepsKeys(s, 0, op);
    assert s'.tasks == map[0 := pc'];
  }

  lemma ReachAbandoned()
    ensures Reachable(StartedTooLate(Reported, 1, 1))
  {
    ReachStartedTooLate();
    hide Reachable;
    TooLateMoves(Started, 0, 0, Acquire, Holding, 1, 0);
    TooLateMoves(Holding, 1, 0, CountUp, Executing, 1, 1);
    TooLateMoves(Executing, 1, 1, Execute(Success), Reporting(Success), 1, 1);
    TooLateMoves(Reporting(Success), 1, 1, Abandon, Reported, 1, 1);
  }

  /** That one assignment really can be lost: the wait is over before it is counted, and
      its goroutine then finds the context cancelled. */
  lemma LateAcceptIsNotAwaited()
    ensures exists steps :: var s := Run(1, steps);
      && s.shutdown.Stopped? && !s.cancelledElsewhere
      && About(All(s), 0) == [Accepted] && s.tasks == map[0 := Reported]
  {
    ReachAbandoned();
    var s := StartedTooLate(Reported, 1, 1);
    assert All(s) == [] + [Event(0, Accepted)];
    AboutSnoc([], Event(0, Accepted), 0);
  }
}
