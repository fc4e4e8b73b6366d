/** When the wait in Shutdown can end: not if the sender goroutine has gone and the send
    channel has no room left for the results still to come. */
module ShutdownWait {
  import opened AgentProtocol
  import opened Ids
  import opened TaskEvents

  /** Goroutines whose result is not queued yet, the one about to start included. */
  function Unreported(s: State): nat {
    |Between(s.tasks, 0, 4)| + if s.loop.Spawning? then 1 else 0
  }

  /** Shutdown waits, the sender goroutine has exited, nothing has cancelled the context, and
      the channel cannot take a result from every goroutine. */
  predicate Hopeless(s: State) {
    && s.shutdown.Waiting?
    && s.sender.Exited?
    && !s.cancelled
    && |s.sendCh| + Unreported(s) > Capacity(s)
  }

  /** No step cancels the context from outside. */
  predicate Undisturbed(steps: seq<Step>) {
    forall k :: 0 <= k < |steps| ==> steps[k] != Env(CancelElsewhere)
  }

  // ----- a hopeless wait never ends

  lemma LoopStaysHopeless(s: State, op: LoopOp)
    requires Identified(s) && Hopeless(s)
    ensures Hopeless(LoopStep(s, op))
  {
    hide Between;
    if op.Spawn? && s.loop.Spawning? {
      MoveOne(s.tasks, s.loop.id, Started, 0, 4);
    }
  }

  lemma TaskStaysHopeless(s: State, id: AssignmentId, op: TaskOp)
    requires Hopeless(s)
    ensures Hopeless(TaskStep(s, id, op))
  {
    hide Between;
    if Enabled(s, id, op) {
      MoveOne(s.tasks, id, TaskStep(s, id, op).tasks[id], 0, 4);
    }
  }

  lemma UnreportedAreCounted(s: State)
    requires CountsAgree(s)
    ensures Unreported(s) <= s.wg
  {
    SubsetSize(Between(s.tasks, 0, 4), Between(s.tasks, 0, 7));
  }

  lemma NextStaysHopeless(s: State, l: Step)
    requires CountsAgree(s) && Identified(s) && Hopeless(s) && l != Env(CancelElsewhere)
    ensures Hopeless(Next(s, l))
  {
    hide LoopStep, TaskStep, CountsAgree, Identified, Between;
    UnreportedAreCounted(s);
    ChannelIsBounded(s);
    match l
    case Loop(op) => LoopStaysHopeless(s, op);
    case Task(id, op) => TaskStaysHopeless(s, id, op);
    case Env(_) =>
    case Sender(_) =>
    case Shutdown(_) =>
  }

  lemma ChannelIsBounded(s: State)
    requires CountsAgree(s)
    ensures |s.sendCh| <= Capacity(s)
  {
  }

  lemma {:induction false} StaysHopeless(s: State, more: seq<Step>)
    requires CountsAgree(s) && Identified(s) && Hopeless(s) && Undisturbed(more)
    ensures var s' := RunFrom(s, more); CountsAgree(s') && Identified(s') && Hopeless(s')
    decreases |more|
  {
    hide CountsAgree, Identified, Hopeless, Next;
    if more == [] {
    } else {
      var front := more[..|more| - 1];
      StaysHopeless(s, front);
      NextKeepsIdentities(RunFrom(s, front), more[|more| - 1]);
      NextKeepsCounts(RunFrom(s, front), more[|more| - 1]);
      NextStaysHopeless(RunFrom(s, front), more[|more| - 1]);
    }
  }

  // ----- any other wait can end

  /** What is left to do: three units for each stage ahead of a goroutine, two for each event
      in the channel, one for the event in the sender's hand. */
  function Work(s: State): nat {
    3 * Stages(s.tasks) + 2 * |s.sendCh| + (if s.sender.Sending? then 1 else 0) + (if s.loop.Spawning? then 22 else 0)
  }

  /** The stages ahead of all goroutines: one for each goroutine and each stage it is below. */
  function Stages(tasks: map<AssignmentId, TaskPc>): nat {
    |Between(tasks, 0, 1)| + |Between(tasks, 0, 2)| + |Between(tasks, 0, 3)| + |Between(tasks, 0, 4)|
    + |Between(tasks, 0, 5)| + |Between(tasks, 0, 6)| + |Between(tasks, 0, 7)|
  }

  lemma MoveStages(tasks: map<AssignmentId, TaskPc>, id: AssignmentId, pc: TaskPc)
    ensures Stages(tasks[id := pc]) == Stages(tasks) - (if id in tasks then 7 - Stage(tasks[id]) else 0) + 7 - Stage(pc)
  {
    hide Between;
    MoveOne(tasks, id, pc, 0, 1);
    MoveOne(tasks, id, pc, 0, 2);
    MoveOne(tasks, id, pc, 0, 3);
    MoveOne(tasks, id, pc, 0, 4);
    MoveOne(tasks, id, pc, 0, 5);
    MoveOne(tasks, id, pc, 0, 6);
    MoveOne(tasks, id, pc, 0, 7);
  }

  /** The state of a wait that is not hopeless. */
  ghost predicate Hopeful(s: State) {
    CountsAgree(s) && Identified(s) && s.maxConcurrent > 0 && s.shutdown.Waiting? && !Hopeless(s)
  }

  /** A step that brings a hopeful wait nearer to its end. */
  ghost predicate Helps(s: State, l: Step) {
    l != Env(CancelElsewhere) && Hopeful(Next(s, l)) && Work(Next(s, l)) < Work(s)
  }

  lemma TaskHelps(s: State, id: AssignmentId, op: TaskOp)
    requires Hopeful(s) && Enabled(s, id, op)
    ensures Helps(s, Task(id, op))
  {
    hide Between, Stages, Identified, CountsAgree;
    var s' := TaskStep(s, id, op);
    NextKeepsIdentities(s, Task(id, op));
    NextKeepsCounts(s, Task(id, op));
    MoveStages(s.tasks, id, s'.tasks[id]);
    MoveOne(s.tasks, id, s'.tasks[id], 0, 4);
    TaskStepFrame(s, id, op);
  }

  lemma SpawnHelps(s: State)
    requires Hopeful(s) && s.loop.Spawning?
    ensures Helps(s, Loop(Spawn))
  {
    hide Between, Stages, CountsAgree;
    NextKeepsIdentities(s, Loop(Spawn));
    NextKeepsCounts(s, Loop(Spawn));
    MoveStages(s.tasks, s.loop.id, Started);
    MoveOne(s.tasks, s.loop.id, Started, 0, 4);
  }

  lemma SenderHelps(s: State)
    requires Hopeful(s) && !s.sender.Exited? && |s.sendCh| == Capacity(s)
    ensures Helps(s, Sender(if s.sender.Idle? then Take else Send))
  {
    hide Between, Stages, Identified, CountsAgree;
    var l := Sender(if s.sender.Idle? then Take else Send);
    NextKeepsIdentities(s, l);
    NextKeepsCounts(s, l);
  }

  /** What a goroutine can do next, when neither the channel nor the semaphore is in its way. */
  function NextOp(pc: TaskPc): TaskOp
    requires !pc.Finished?
  {
    match pc
    case Started => Acquire
    case Holding => CountUp
    case Executing => Execute(Success)
    case Reporting(_) => Report
    case Reported => CountDown
    case Uncounted => Release
    case Released => Done
  }

  lemma UnfinishedExists(s: State)
    requires CountsAgree(s) && !s.loop.Spawning?
    ensures s.wg == 0 || exists id :: id in s.tasks && !s.tasks[id].Finished?
  {
    if forall id :: id in s.tasks ==> s.tasks[id].Finished? {
      assert Between(s.tasks, 0, 7) == {};
    }
  }

  /** If only one goroutine is anywhere between start and end, it holds the only token. */
  lemma HolderOrRoom(s: State)
    requires CountsAgree(s) && s.maxConcurrent > 0
    ensures s.sem < s.maxConcurrent || exists id :: id in s.tasks && 1 <= Stage(s.tasks[id]) < 6
  {
    if forall id :: id in s.tasks ==> !(1 <= Stage(s.tasks[id]) < 6) {
      assert Between(s.tasks, 1, 6) == {};
    }
  }

  lemma HolderHasToken(s: State, id: AssignmentId)
    requires CountsAgree(s) && id in s.tasks && 1 <= Stage(s.tasks[id]) < 6
    ensures s.sem > 0
  {
    assert id in Between(s.tasks, 1, 6);
  }

  lemma UnreportedOne(s: State, id: AssignmentId)
    requires id in s.tasks && Stage(s.tasks[id]) < 4
    ensures Unreported(s) > 0
  {
    assert id in Between(s.tasks, 0, 4);
  }

  /** A goroutine past its start can move, or the sender can make room for it. */
  lemma MovesOrMakesRoom(s: State, id: AssignmentId)
    requires Hopeful(s) && id in s.tasks && 1 <= Stage(s.tasks[id]) < 7
    ensures exists l :: Helps(s, l)
  {
    hide Helps, Between, Identified, Work;
    var pc := s.tasks[id];
    if pc.Reporting? && s.cancelled {
      TaskHelps(s, id, Abandon);
    } else if pc.Reporting? && |s.sendCh| >= Capacity(s) {
      UnreportedOne(s, id);
      SenderHelps(s);
    } else {
      if Stage(pc) < 6 {
        HolderHasToken(s, id);
      }
      TaskHelps(s, id, NextOp(pc));
    }
  }

  lemma SomethingHelps(s: State)
    requires Hopeful(s) && s.wg > 0
    ensures exists l :: Helps(s, l)
  {
    hide Helps, Between, Identified, Work, CountsAgree, Hopeless;
    if s.loop.Spawning? {
      SpawnHelps(s);
    } else if id :| id in s.tasks && 1 <= Stage(s.tasks[id]) < 7 {
      MovesOrMakesRoom(s, id);
    } else {
      UnfinishedExists(s);
      var id :| id in s.tasks && !s.tasks[id].Finished?;
      HolderOrRoom(s);
      assert s.tasks[id].Started?;
      TaskHelps(s, id, Acquire);
    }
  }

  lemma {:induction false} RunCons(s: State, l: Step, more: seq<Step>)
    ensures RunFrom(s, [l] + more) == RunFrom(Next(s, l), more)
    decreases |more|
  {
    if more == [] {
      assert [l] + more == [l] && [l][..0] == [];
    } else {
      var front := more[..|more| - 1];
      assert ([l] + more)[..|more|] == [l] + front;
      RunCons(s, l, front);
    }
  }

  /** `more` leads to the end of the wait without a cancellation from outside. */
  predicate Ends(s: State, more: seq<Step>) {
    Undisturbed(more) && RunFrom(s, more).shutdown.Waited?
  }

  lemma {:induction false} HopefulCanEnd(s: State)
    requires Hopeful(s)
    ensures exists more :: Ends(s, more)
    decreases Work(s)
  {
    hide Hopeful, Work, Helps;
    var l: Step;
    var rest: seq<Step>;
    if WaitIsOver(s) {
      l, rest := Shutdown(WaitReturns), [];
    } else {
      StillCounted(s);
      SomethingHelps(s);
      l :| Helps(s, l);
      WhatHelps(s, l);
      HopefulCanEnd(Next(s, l));
      rest :| Ends(Next(s, l), rest);
    }
    RunCons(s, l, rest);
    assert Ends(s, [l] + rest);
  }

  predicate WaitIsOver(s: State) {
    s.shutdown.Waiting? && s.wg == 0
  }

  lemma StillCounted(s: State)
    requires Hopeful(s) && !WaitIsOver(s)
    ensures s.wg > 0
  {
  }

  lemma WhatHelps(s: State, l: Step)
    requires Helps(s, l)
    ensures l != Env(CancelElsewhere) && Hopeful(Next(s, l)) && Work(Next(s, l)) < Work(s)
  {
  }

  /** In every run, once Shutdown waits, the wait can still end without the context being
      cancelled from outside if and only if the sender goroutine is still there, the context is
      already cancelled, or the channel has room for every result still to come.  Otherwise it
      lasts for good. */
  lemma WaitCanEndExactlyWhenNotHopeless(maxConcurrent: int, steps: seq<Step>)
    requires Run(maxConcurrent, steps).shutdown.Waiting?
    ensures var s := Run(maxConcurrent, steps); (exists more :: Ends(s, more)) <==> !Hopeless(s)
  {
    hide Run, CountsAgree, Identified, Hopeless;
    var s := Run(maxConcurrent, steps);
    EveryRunHolds(maxConcurrent, steps, 0);
    if Hopeless(s) {
      forall more
        ensures !Ends(s, more)
      {
        if Undisturbed(more) {
          StaysHopeless(s, more);
          HopelessWaits(RunFrom(s, more));
        }
      }
    } else {
      HopefulCanEnd(s);
    }
  }

  lemma HopelessWaits(s: State)
    requires Hopeless(s)
    ensures s.shutdown.Waiting?
  {
  }

  // ----- a hopeless wait is reached

  /** The state after the receive loop has taken one more assignment and started it. */
  function OneAccepted(s: State): State {
    Queue(s, Event(s.received, Accepted)).(received := s.received + 1, wg := s.wg + 1, tasks := s.tasks[s.received := Started])
  }

  lemma AcceptsOne(s: State)
    requires Reachable(s) && s.loop.Polling? && !s.sendErr && !s.draining && s.received < s.issued && |s.sendCh| < Capacity(s)
    ensures Reachable(OneAccepted(s))
  {
    hide Reachable;
    var s1 := Do(s, Loop(Poll));
    s1 := Do(s1, Loop(Receive));
    s1 := Do(s1, Loop(Check));
    s1 := Do(s1, Loop(Put));
    s1 := Do(s1, Loop(Add));
    s1 := Do(s1, Loop(Spawn));
    assert s1 == OneAccepted(s);
  }

  /** Three assignments are accepted; the sender has taken the first event, and the other two
      fill the channel of an agent with limit 1. */
  lemma ChannelFills() returns (s: State)
    ensures Reachable(s) && s.sender.Sending? && |s.sendCh| == Capacity(s)
    ensures s.shutdown.NotStarted? && !s.cancelled && 0 in s.tasks && s.tasks[0].Started?
  {
    hide Reachable;
    s := ThreeIssued();
    AcceptsOne(s);
    s := Do(OneAccepted(s), Sender(Take));
    AcceptsOne(s);
    AcceptsOne(OneAccepted(s));
    s := OneAccepted(OneAccepted(s));
  }

  /** Then the send fails, and Shutdown begins. */
  lemma HopelessWaitIsReached()
    ensures exists steps :: Hopeless(Run(1, steps)) && !Run(1, steps).cancelled
  {
    var s := ChannelFills();
    s := Do(s, Sender(SendFails));
    s := Do(s, Shutdown(SetDrain));
    UnreportedOne(s, 0);
    hide Run, Unreported;
    var steps :| Run(1, steps) == s;
  }

  lemma ThreeIssued() returns (s: State)
    ensures Reachable(s) && s == Init(1).(issued := 3)
  {
    assert Run(1, []) == Init(1);
    assert Reachable(Init(1));
    hide Reachable;
    s := Do(Init(1), Env(Assign));
    s := Do(s, Env(Assign));
    s := Do(s, Env(Assign));
  }
}
