/** The events a worker reports about assignments, and the status each one writes. */
module TaskEvents {
  import opened Ids

  datatype ExecStatus = Success | Failed | Cached | Skipped | TimedOut | Cancelled | Unknown

  datatype Payload = Accepted | Rejected | Result(status: ExecStatus)

  datatype Event = Event(id: AssignmentId, payload: Payload)

  datatype Status = Pending | Assigned | Running | CompletedStatus | FailedStatus

  function StatusOf(p: Payload): Status {
    match p
    case Accepted => Running
    case Rejected => Pending
    case Result(status) => if status == Success || status == Cached then CompletedStatus else FailedStatus
  }

  /** The payloads reported for one assignment, in order. */
  function About(events: seq<Event>, id: AssignmentId): seq<Payload> {
    if events == [] then []
    else
      var rest := About(events[..|events| - 1], id);
      var e := events[|events| - 1];
      if e.id == id then rest + [e.payload] else rest
  }

  function Statuses(payloads: seq<Payload>): seq<Status> {
    seq(|payloads|, i requires 0 <= i < |payloads| => StatusOf(payloads[i]))
  }

  lemma AboutSnoc(events: seq<Event>, e: Event, id: AssignmentId)
    ensures About(events + [e], id) == About(events, id) + if e.id == id then [e.payload] else []
  {
    assert (events + [e])[..|events|] == events;
  }

  lemma {:induction false} AboutConcat(a: seq<Event>, b: seq<Event>, id: AssignmentId)
    ensures About(a + b, id) == About(a, id) + About(b, id)
    decreases |b|
  {
    if b == [] {
      assert a + b == a;
    } else {
      var b', e := b[..|b| - 1], b[|b| - 1];
      assert b == b' + [e] && a + b == (a + b') + [e];
      AboutConcat(a, b', id);
      AboutSnoc(a + b', e, id);
      AboutSnoc(b', e, id);
    }
  }

  lemma AboutPrefix(a: seq<Event>, b: seq<Event>, id: AssignmentId)
    requires a <= b
    ensures About(a, id) <= About(b, id)
  {
    assert b == a + b[|a|..];
    AboutConcat(a, b[|a|..], id);
  }

  lemma {:induction false} AboutIsReported(events: seq<Event>, id: AssignmentId, p: Payload)
    requires p in About(events, id)
    ensures Event(id, p) in events
    decreases |events|
  {
    var front, e := events[..|events| - 1], events[|events| - 1];
    if !(e.id == id && e.payload == p) {
      AboutIsReported(front, id, p);
    }
  }

  // ----- what an assignment may go through

  /** A prefix of [Rejected] or of [Accepted, Result]. */
  predicate IsLifecycle(p: seq<Payload>) {
    || p == []
    || p == [Rejected]
    || p == [Accepted]
    || (|p| == 2 && p[0] == Accepted && p[1].Result?)
  }

  /** A prefix of [Pending], of [Running, Completed] or of [Running, Failed]. */
  predicate IsStatusHistory(w: seq<Status>) {
    || w <= [Pending]
    || w <= [Running, CompletedStatus]
    || w <= [Running, FailedStatus]
  }

  /** One status for each event: a rejected assignment is pending again, an accepted one runs,
      and a result completes it exactly when the execution succeeded or was cached. */
  lemma LifecycleWritesStatusHistory(p: seq<Payload>)
    requires IsLifecycle(p)
    ensures IsStatusHistory(Statuses(p)) && |Statuses(p)| == |p|
    ensures |p| > 0 ==> Statuses(p)[0] == if p[0] == Rejected then Pending else Running
    ensures |p| == 2 ==>
              Statuses(p)[1] == if p[1].status in {Success, Cached} then CompletedStatus else FailedStatus
  {
  }
}
