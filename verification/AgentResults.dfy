/** What the agent reports, and when its threads stop: every result is the one its execution
    yielded, and an error ends the sender and then the receive loop. */
module AgentResults {
  import opened AgentProtocol
  import opened Ids
  import opened TaskEvents

  // ----- results

  /** The execution of assignment `id` was carried out in the run and yielded `status`. */
  ghost predicate Executed(maxConcurrent: int, steps: seq<Step>, id: AssignmentId, status: ExecStatus) {
    exists k :: 0 <= k < |steps| && steps[k] == Task(id, Execute(status)) &&
                Enabled(Run(maxConcurrent, steps[..k]), id, Execute(status))
  }

  lemma ExecutedSnoc(maxConcurrent: int, steps: seq<Step>, l: Step, id: AssignmentId, status: ExecStatus)
    requires || Executed(maxConcurrent, steps, id, status)
             || (l == Task(id, Execute(status)) && Enabled(Run(maxConcurrent, steps), id, Execute(status)))
    ensures Executed(maxConcurrent, steps + [l], id, status)
  {
    hide Run, Enabled;
    var all := steps + [l];
    assert all[..|steps|] == steps;
    if Executed(maxConcurrent, steps, id, status) {
      var k :| 0 <= k < |steps| && steps[k] == Task(id, Execute(status)) &&
               Enabled(Run(maxConcurrent, steps[..k]), id, Execute(status));
      assert all[k] == steps[k] && all[..k] == steps[..k];
    } else {
      assert all[|steps|] == l;
    }
  }

  /** Every result that is queued, or about to be, is that of an execution. */
  ghost predicate ResultsAreReal(maxConcurrent: int, steps: seq<Step>) {
    var s := Run(maxConcurrent, steps);
    && (forall e :: e in All(s) && e.payload.Result? ==> Executed(maxConcurrent, steps, e.id, e.payload.status))
    && (forall id :: id in s.tasks && s.tasks[id].Reporting? ==> Executed(maxConcurrent, steps, id, s.tasks[id].status))
  }

  lemma RunSnoc(maxConcurrent: int, steps: seq<Step>, l: Step)
    ensures Run(maxConcurrent, steps + [l]) == Next(Run(maxConcurrent, steps), l)
  {
    assert (steps + [l])[..|steps|] == steps;
  }

  /** The goroutine was reporting that status before, or has executed and got it. */
  predicate Explained(s: State, l: Step, id: AssignmentId, pc: TaskPc) {
    pc.Reporting? ==>
      (id in s.tasks && s.tasks[id] == pc) || (l == Task(id, Execute(pc.status)) && Enabled(s, id, Execute(pc.status)))
  }

  lemma {:induction false} TaskReports(s: State, t: AssignmentId, op: TaskOp)
    requires t in s.tasks
    ensures t in TaskStep(s, t, op).tasks && Explained(s, Task(t, op), t, TaskStep(s, t, op).tasks[t])
  {
  }

  lemma {:induction false} LoopReports(s: State, op: LoopOp, id: AssignmentId)
    requires id in LoopStep(s, op).tasks
    ensures Explained(s, Loop(op), id, LoopStep(s, op).tasks[id])
  {
    hide Enabled;
  }

  /** A goroutine comes to report a status only by an execution that yields it. */
  lemma {:induction false} ReportingComesFromExecution(s: State, l: Step, id: AssignmentId)
    requires id in Next(s, l).tasks
    ensures Explained(s, l, id, Next(s, l).tasks[id])
  {
    hide Enabled, TaskStep, LoopStep, EnvStep, SenderStep, ShutdownStep;
    match l
    case Task(t, op) =>
      TaskStepKeepsKeys(s, t, op);
      if id == t {
        TaskReports(s, t, op);
      }
    case Loop(op) => LoopReports(s, op, id);
    case Env(op) => EnvStepFrame(s, op);
    case Sender(op) => SenderStepFrame(s, op);
    case Shutdown(op) => ShutdownStepFrame(s, op);
  }

  /** A queued result is the one its goroutine was reporting. */
  lemma QueuedResultIsReported(s: State, l: Step, e: Event)
    requires e in Queued(s, l) && e.payload.Result?
    ensures e.id in s.tasks && s.tasks[e.id] == Reporting(e.payload.status)
  {
  }

  lemma {:induction false} NextIsReal(maxConcurrent: int, steps: seq<Step>, l: Step)
    requires ResultsAreReal(maxConcurrent, steps)
    ensures ResultsAreReal(maxConcurrent, steps + [l])
  {
    hide All, Run, Next, Queued, Executed;
    var s := Run(maxConcurrent, steps);
    RunSnoc(maxConcurrent, steps, l);
    NextQueues(s, l);
    forall e | e in All(Next(s, l)) && e.payload.Result?
      ensures Executed(maxConcurrent, steps + [l], e.id, e.payload.status)
    {
      if e !in All(s) {
        QueuedResultIsReported(s, l, e);
      }
      ExecutedSnoc(maxConcurrent, steps, l, e.id, e.payload.status);
    }
    forall id | id in Next(s, l).tasks && Next(s, l).tasks[id].Reporting?
      ensures Executed(maxConcurrent, steps + [l], id, Next(s, l).tasks[id].status)
    {
      ReportingComesFromExecution(s, l, id);
      ExecutedSnoc(maxConcurrent, steps, l, id, Next(s, l).tasks[id].status);
    }
  }

  /** In every run, each result that is queued, sent or read is the status that the execution
      of its own assignment yielded. */
  lemma {:induction false} EveryResultWasExecuted(maxConcurrent: int, steps: seq<Step>)
    ensures ResultsAreReal(maxConcurrent, steps)
    decreases |steps|
  {
    if steps == [] {
    } else {
      var front, l := steps[..|steps| - 1], steps[|steps| - 1];
      EveryResultWasExecuted(maxConcurrent, front);
      NextIsReal(maxConcurrent, front, l);
      assert front + [l] == steps;
    }
  }

  // ----- blocking

  /** What blocks a thread: an event waits to be queued only while twice the limit are queued
      already, a goroutine waits to begin only while as many as the limit hold a token. */
  lemma {:induction false} OnlyFullnessBlocks(maxConcurrent: int, steps: seq<Step>, id: AssignmentId)
    ensures var s, limit := Run(maxConcurrent, steps), if maxConcurrent <= 0 then 4 else maxConcurrent;
      && (s.loop.Accepting? || s.loop.Rejecting? ==>
            (|s.sendCh| < 2 * limit <==> |Next(s, Loop(Put)).sendCh| == |s.sendCh| + 1))
      && (id in s.tasks && s.tasks[id].Reporting? ==> (|s.sendCh| < 2 * limit <==> Enabled(s, id, Report)))
      && (id in s.tasks && s.tasks[id].Started? ==> (s.sem < limit <==> Enabled(s, id, Acquire)))
  {
    hide Run, CountsAgree, Identified, DrainHolds, Fits, Answers, Awaited, About, All;
    EveryRunHolds(maxConcurrent, steps, id);
  }

  // ----- errors

  /** The sender leaves only when the context is cancelled, or when a send fails; then the
      receive loop finds the error before it takes another assignment. */
  predicate ErrorsAreSeen(s: State) {
    && (s.sender.Exited? ==> (s.sender.lost == [] && s.cancelled) || (|s.sender.lost| == 1 && (s.sendErr || s.loop.Returned?)))
    && (s.sendErr ==> s.sender.Exited?)
  }

  lemma LoopSeesErrors(s: State, op: LoopOp)
    requires ErrorsAreSeen(s)
    ensures ErrorsAreSeen(LoopStep(s, op))
  {
  }

  lemma SenderSeesErrors(s: State, op: SenderOp)
    requires ErrorsAreSeen(s)
    ensures ErrorsAreSeen(SenderStep(s, op))
  {
  }

  lemma NextSeesErrors(s: State, l: Step)
    requires ErrorsAreSeen(s)
    ensures ErrorsAreSeen(Next(s, l))
  {
    hide LoopStep, TaskStep, SenderStep, EnvStep, ShutdownStep;
    match l
    case Loop(op) => LoopSeesErrors(s, op);
    case Sender(op) => SenderSeesErrors(s, op);
    case Task(t, op) => TaskStepFrame(s, t, op);
    case Env(op) => EnvStepFrame(s, op); CancelledStays(s, l);
    case Shutdown(op) => ShutdownStepFrame(s, op); CancelledStays(s, l);
  }

  lemma {:induction false} EveryRunSeesErrors(maxConcurrent: int, steps: seq<Step>)
    ensures ErrorsAreSeen(Run(maxConcurrent, steps))
    decreases |steps|
  {
    hide ErrorsAreSeen, Next;
    if steps == [] {
      NothingSeen(maxConcurrent);
    } else {
      EveryRunSeesErrors(maxConcurrent, steps[..|steps| - 1]);
      NextSeesErrors(Run(maxConcurrent, steps[..|steps| - 1]), steps[|steps| - 1]);
    }
  }

  lemma NothingSeen(maxConcurrent: int)
    ensures ErrorsAreSeen(Init(maxConcurrent))
  {
  }

  /** How many more assignments the receive loop can take once it has an error to read. */
  function StillToTake(s: State): nat {
    if s.loop.Receiving? then 1 else 0
  }

  /** The loop has returned, or has an error to read. */
  predicate IsEnding(s: State) {
    s.loop.Returned? || s.sendErr
  }

  lemma LoopIsEnding(s: State, op: LoopOp)
    requires IsEnding(s)
    ensures var s' := LoopStep(s, op); IsEnding(s') && s'.received + StillToTake(s') <= s.received + StillToTake(s)
  {
  }

  lemma SenderIsEnding(s: State, op: SenderOp)
    requires IsEnding(s)
    ensures IsEnding(SenderStep(s, op))
  {
  }

  lemma NextIsEnding(s: State, l: Step)
    requires IsEnding(s)
    ensures var s' := Next(s, l); IsEnding(s') && s'.received + StillToTake(s') <= s.received + StillToTake(s)
  {
    hide LoopStep, TaskStep, SenderStep, EnvStep, ShutdownStep;
    match l
    case Loop(op) => LoopIsEnding(s, op);
    case Sender(op) => SenderStepFrame(s, op); SenderIsEnding(s, op);
    case Task(t, op) => TaskStepFrame(s, t, op);
    case Env(op) => EnvStepFrame(s, op);
    case Shutdown(op) => ShutdownStepFrame(s, op);
  }

  lemma {:induction false} StaysEnding(s: State, more: seq<Step>)
    requires IsEnding(s)
    ensures var s' := RunFrom(s, more); IsEnding(s') && s'.received + StillToTake(s') <= s.received + StillToTake(s)
    decreases |more|
  {
    hide IsEnding, Next, StillToTake;
    if more == [] {
    } else {
      StaysEnding(s, more[..|more| - 1]);
      NextIsEnding(RunFrom(s, more[..|more| - 1]), more[|more| - 1]);
    }
  }

  /** After a failed send the receive loop takes at most one more assignment, and none if it is
      not already waiting for one; after a failed receive it takes none. */
  lemma ErrorsEndTheLoop(s: State, more: seq<Step>)
    ensures s.sender.Sending? ==>
      var s' := Next(s, Sender(SendFails)); RunFrom(s', more).received <= s.received + if s.loop.Receiving? then 1 else 0
    ensures s.loop.Receiving? ==>
      var s' := Next(s, Loop(ReceiveFails)); RunFrom(s', more).received <= s.received
  {
    if s.sender.Sending? {
      StaysEnding(Next(s, Sender(SendFails)), more);
    }
    if s.loop.Receiving? {
      StaysEnding(Next(s, Loop(ReceiveFails)), more);
    }
  }
}
