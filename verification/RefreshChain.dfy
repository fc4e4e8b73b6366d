/** Concurrent requests of one logged-in client, refreshing its tokens under a lock, against
    a server that works on a refresh call statement by statement (RFC 6749, section 6).

    Threads run doRequest: make sure the token is valid, send the request, and after a 401
    make sure once more and send again.  A client that gives up on a refresh call (the
    context ends, the connection breaks, the reply cannot be read) leaves the call to the
    server, which may work on it at any later time or never. */
module RefreshChain {
  import opened Ids
  import opened TokenService
  import opened Wrappers

  type Thread = nat

  /** `again` is false for the first attempt and true after a 401. */
  datatype Pc =
    | Wanting(again: bool)                        // about to take refreshMu
    | Checking(again: bool)                       // holds it, about to test expiry
    | Sent(again: bool, call: nat)                // waiting for the reply to a refresh call
    | SettingAccess(again: bool, pair: Pair, expiresAt: Time)
    | SettingRefresh(again: bool, pair: Pair, expiresAt: Time)
    | SettingExpiry(again: bool, pair: Pair, expiresAt: Time)
    | Ready(again: bool)                          // about to send the request
    | Done

  /** How far the server is with a refresh call. */
  datatype Phase =
    | Travelling
    | Validated                                   // about to revoke the presented token
    | Emptied                                     // about to sign the new tokens and create the access token's row
    | HalfMade(access: Jti, expiresAt: Time)      // about to create the refresh token's row
    | Succeeded(pair: Pair, expiresAt: Time)
    | Failed

  /** Whether the client waits for the reply, has it, or gave up, and if so, whether the
      presented token was spent at that moment. */
  datatype Fate = Awaited | Received | GivenUp(spent: bool)

  /** A call spends its token when the server, having validated it, passes the revocation:
      from then on the call leads to new tokens unless the store fails. */
  datatype RefreshCall = RefreshCall(token: Jti, sentAt: Time, phase: Phase, spent: bool, fate: Fate)

  datatype Client = Client(access: Jti, refresh: Jti, expiresAt: Time)

  /** What a thread has done: made sure of the token, or failed to, and asked with it. */
  datatype Event = Ensured(ok: bool) | Asked(access: Jti, unauthorized: bool)

  datatype State = State(
    rows: Table,
    next: Jti,                    // ids from here on are unused
    client: Client,
    lock: Option<Thread>,
    threads: map<Thread, Pc>,
    calls: seq<RefreshCall>,      // all refresh calls of this client, oldest first
    trails: map<Thread, seq<Event>>)

  /** Just logged in, with the pair (0, 1); other rows of the table do not matter here. */
  function Init(expiresAt: Time, refreshExpiry: Time): State {
    State(map[0 := Row(Access, false, expiresAt), 1 := Row(Refresh, false, refreshExpiry)], 2,
          Client(0, 1, expiresAt), None, map[], [], map[])
  }

  /** A token counts as expired from a minute before its time on. */
  predicate IsExpired(client: Client, now: Time) {
    now + 60 > client.expiresAt
  }

  function Trail(s: State, t: Thread): seq<Event> {
    if t in s.trails then s.trails[t] else []
  }

  datatype ClientOp =
    | Start | Lock | Check(now: Time) | GiveUp | Receive | Write | Request(unauthorized: bool)

  datatype ServerOp =
    | Validate(parsed: bool, now: Time, lookupFails: bool)
    | RevokeRow(fails: bool)
    | CreateAccess(expiry: Time, fails: bool)
    | CreateRefresh(expiry: Time, fails: bool)

  datatype Step = OfClient(t: Thread, client: ClientOp) | OfServer(call: nat, server: ServerOp)

  // ----- steps of the client

  function Goto(s: State, t: Thread, pc: Pc): State {
    s.(threads := s.threads[t := pc])
  }

  function Note(s: State, t: Thread, e: Event): State {
    s.(trails := s.trails[t := Trail(s, t) + [e]])
  }

  /** Leaves the critical section with a valid token, or without. */
  function Unlock(s: State, t: Thread, pc: Pc, ok: bool): State {
    Note(Goto(s, t, pc), t, Ensured(ok)).(lock := None)
  }

  /** A failed refresh is ignored on the first attempt and ends the call on the second. */
  function AfterFailure(again: bool): Pc {
    if again then Done else Ready(false)
  }

  function Close(s: State, i: nat, fate: Fate): State
    requires i < |s.calls|
  {
    s.(calls := s.calls[i := s.calls[i].(fate := fate)])
  }

  predicate IsWaiting(s: State, pc: Pc) {
    pc.Sent? && pc.call < |s.calls|
  }

  function ClientStep(s: State, t: Thread, op: ClientOp): State {
    if op.Start? then
      if t in s.threads then s else Goto(s, t, Wanting(false))
    else if t !in s.threads then s
    else
      var pc := s.threads[t];
      match op
      case Start => s
      case Lock =>
        if pc.Wanting? && s.lock.None? then Goto(s, t, Checking(pc.again)).(lock := Some(t)) else s
      case Check(now) =>
        if !pc.Checking? then s
        else if !IsExpired(s.client, now) then Unlock(s, t, Ready(pc.again), true)
        else Goto(s, t, Sent(pc.again, |s.calls|)).(
          calls := s.calls + [RefreshCall(s.client.refresh, now, Travelling, false, Awaited)])
      case GiveUp =>
        if !IsWaiting(s, pc) then s
        else Unlock(Close(s, pc.call, GivenUp(s.calls[pc.call].spent)), t, AfterFailure(pc.again), false)
      case Receive =>
        if !IsWaiting(s, pc) then s
        else
          var phase := s.calls[pc.call].phase;
          if phase.Succeeded? then Goto(Close(s, pc.call, Received), t, SettingAccess(pc.again, phase.pair, phase.expiresAt))
          else if phase.Failed? then Unlock(Close(s, pc.call, Received), t, AfterFailure(pc.again), false)
          else s
      case Write =>
        if pc.SettingAccess? then
          Goto(s, t, SettingRefresh(pc.again, pc.pair, pc.expiresAt)).(client := s.client.(access := pc.pair.access))
        else if pc.SettingRefresh? then
          Goto(s, t, SettingExpiry(pc.again, pc.pair, pc.expiresAt)).(client := s.client.(refresh := pc.pair.refresh))
        else if pc.SettingExpiry? then
          Unlock(s, t, Ready(pc.again), true).(client := s.client.(expiresAt := pc.expiresAt))
        else s
      case Request(unauthorized) =>
        if !pc.Ready? then s
        else
          var after := if unauthorized && !pc.again then Wanting(true) else Done;
          Note(Goto(s, t, after), t, Asked(s.client.access, unauthorized))
  }

  // ----- steps of the server

  function Advance(s: State, i: nat, phase: Phase): State
    requires i < |s.calls|
  {
    s.(calls := s.calls[i := s.calls[i].(phase := phase)])
  }

  /** One statement of the server for call `i`.  Revoking a row that is already revoked is
      not an error. */
  function ServerStep(s: State, i: nat, op: ServerOp): State {
    if i >= |s.calls| then s
    else
      var c := s.calls[i];
      match op
      case Validate(parsed, now, lookupFails) =>
        if !c.phase.Travelling? then s
        else
          var p := if parsed then Signed(c.token, Refresh) else OutOfDate;
          var ok := CheckRefresh(s.rows, p, now, if lookupFails then LookupFails else NoFault).Ok?;
          Advance(s, i, if ok then Validated else Failed)
      case RevokeRow(fails) =>
        if !c.phase.Validated? then s
        else if fails then Advance(s, i, Failed)
        else s.(rows := Revoke(s.rows, c.token), calls := s.calls[i := c.(phase := Emptied, spent := true)])
      case CreateAccess(expiry, fails) =>
        if !c.phase.Emptied? then s
        else if fails then Advance(s, i, Failed)
        else Advance(s, i, HalfMade(s.next, expiry)).(rows := s.rows[s.next := Row(Access, false, expiry)], next := s.next + 1)
      case CreateRefresh(expiry, fails) =>
        if !c.phase.HalfMade? then s
        else if fails then Advance(s, i, Failed)
        else Advance(s, i, Succeeded(Pair(c.phase.access, s.next), c.phase.expiresAt)).(
          rows := s.rows[s.next := Row(Refresh, false, expiry)], next := s.next + 1)
  }

  function Next(s: State, l: Step): State {
    match l
    case OfClient(t, op) => ClientStep(s, t, op)
    case OfServer(i, op) => ServerStep(s, i, op)
  }

  function RunFrom(s: State, steps: seq<Step>): State {
    if steps == [] then s else Next(RunFrom(s, steps[..|steps| - 1]), steps[|steps| - 1])
  }

  function Run(expiresAt: Time, refreshExpiry: Time, steps: seq<Step>): State {
    RunFrom(Init(expiresAt, refreshExpiry), steps)
  }

  /** With nothing in between, the server's statements do what RefreshTokens does. */
  lemma {:induction false} StatementsOfRefresh(s: State, i: nat, parsed: bool, now: Time, expiry: Time, refreshExpiry: Time, fault: Fault)
    requires i < |s.calls| && s.calls[i].phase.Travelling?
    ensures var s1 := ServerStep(s, i, Validate(parsed, now, fault == LookupFails));
      var s2 := ServerStep(s1, i, RevokeRow(fault == RevokeFails));
      var s3 := ServerStep(s2, i, CreateAccess(expiry, fault == SignFails || fault == AccessCreateFails));
      var s4 := ServerStep(s3, i, CreateRefresh(refreshExpiry, fault == RefreshCreateFails));
      var p := if parsed then Signed(s.calls[i].token, Refresh) else OutOfDate;
      var made := Pair(s.next, s.next + 1);
      && s4.rows == RowsAfter(s.rows, p, made, now, expiry, refreshExpiry, fault)
      && s4.calls[i].phase == (if Reply(s.rows, p, made, now, fault).Ok? then Succeeded(made, expiry) else Failed)
      && s4.calls[i].spent == (s.calls[i].spent || Redeems(s.rows, p, now, fault))
  {
    hide Valid, CheckRefresh;
    SameCheck(s.rows, if parsed then Signed(s.calls[i].token, Refresh) else OutOfDate, now, fault);
  }

  /** Only a failing lookup matters to the check. */
  lemma SameCheck(rows: Table, p: Presented, now: Time, fault: Fault)
    ensures CheckRefresh(rows, p, now, fault) == CheckRefresh(rows, p, now, if fault == LookupFails then LookupFails else NoFault)
    ensures CheckRefresh(rows, p, now, fault).Ok? ==> p.Signed?
    ensures fault == LookupFails ==> CheckRefresh(rows, p, now, fault).Err?
  {
  }

  // ----- the lock

  predicate InSection(pc: Pc) {
    !pc.Wanting? && !pc.Ready? && !pc.Done?
  }

  /** Exactly the holder of the lock is in the critical section. */
  predicate Exclusive(s: State) {
    && (s.lock.Some? ==> s.lock.value in s.threads && InSection(s.threads[s.lock.value]))
    && (forall t :: t in s.threads && InSection(s.threads[t]) ==> s.lock == Some(t))
  }

  /** Only the newest call can be awaited: by the holder of the lock, who sent it with the
      client's token. */
  predicate OneAwaited(s: State)
    requires Exclusive(s)
  {
    && (forall i :: 0 <= i < |s.calls| && s.calls[i].fate.Awaited? ==>
          && i == |s.calls| - 1
          && s.lock.Some? && s.threads[s.lock.value].Sent? && s.threads[s.lock.value].call == i
          && s.calls[i].token == s.client.refresh)
    && (s.lock.Some? && s.threads[s.lock.value].Sent? ==>
          && s.threads[s.lock.value].call == |s.calls| - 1
          && s.calls[|s.calls| - 1].fate.Awaited?)
  }

  lemma ClientKeepsLock(s: State, t: Thread, op: ClientOp)
    requires Exclusive(s)
    ensures Exclusive(ClientStep(s, t, op))
  {
  }

  lemma ClientKeepsOneAwaited(s: State, t: Thread, op: ClientOp)
    requires Exclusive(s) && OneAwaited(s)
    ensures Exclusive(ClientStep(s, t, op)) && OneAwaited(ClientStep(s, t, op))
  {
    ClientKeepsLock(s, t, op);
  }

  /** Calls `b` are calls `a`, as far as the server is concerned, and perhaps new ones. */
  predicate SameWork(a: seq<RefreshCall>, b: seq<RefreshCall>) {
    && |a| <= |b|
    && (forall k :: 0 <= k < |a| ==> b[k].token == a[k].token && b[k].phase == a[k].phase && b[k].spent == a[k].spent)
    && (forall k :: |a| <= k < |b| ==> b[k].phase.Travelling? && !b[k].spent)
  }

  lemma ClientFrame(s: State, t: Thread, op: ClientOp)
    ensures var s' := ClientStep(s, t, op);
      && s' == s.(client := s'.client, lock := s'.lock, threads := s'.threads, calls := s'.calls, trails := s'.trails)
      && SameWork(s.calls, s'.calls)
      && (forall k :: |s.calls| <= k < |s'.calls| ==> s'.calls[k].token == s.client.refresh && s'.client == s.client)
  {
  }

  /** What the server changes: the rows, and the phase of one call. */
  lemma ServerFrame(s: State, i: nat, op: ServerOp)
    ensures var s' := ServerStep(s, i, op);
      && s' == s.(rows := s'.rows, next := s'.next, calls := s'.calls)
      && |s'.calls| == |s.calls|
      && (forall k :: 0 <= k < |s.calls| && k != i ==> s'.calls[k] == s.calls[k])
      && (i < |s.calls| ==> s'.calls[i].token == s.calls[i].token && s'.calls[i].fate == s.calls[i].fate)
  {
  }

  lemma ServerKeepsOneAwaited(s: State, i: nat, op: ServerOp)
    requires Exclusive(s) && OneAwaited(s)
    ensures Exclusive(ServerStep(s, i, op)) && OneAwaited(ServerStep(s, i, op))
  {
    ServerFrame(s, i, op);
    hide ServerStep;
  }

  // ----- calls and rows

  predicate Fits(c: RefreshCall) {
    && (c.spent ==> !c.phase.Travelling? && !c.phase.Validated?)
    && (c.phase.Emptied? || c.phase.HalfMade? || c.phase.Succeeded? ==> c.spent)
    && (c.fate.Received? ==> c.phase.Succeeded? || c.phase.Failed?)
    && (c.fate == GivenUp(true) ==> c.spent)
  }

  predicate CallsFit(s: State) {
    forall i :: 0 <= i < |s.calls| ==> Fits(s.calls[i])
  }

  predicate IsSpent(s: State, j: Jti) {
    exists i :: 0 <= i < |s.calls| && s.calls[i].spent && s.calls[i].token == j
  }

  /** About to write a new pair's refresh token, or its access token first. */
  predicate IsWriting(pc: Pc) {
    pc.SettingAccess? || pc.SettingRefresh?
  }

  /** A row is revoked exactly when some call has spent its token. */
  predicate RowsAgree(s: State) {
    && (forall j :: j in s.rows ==> j < s.next && (s.rows[j].revoked <==> IsSpent(s, j)))
    && (forall i :: 0 <= i < |s.calls| ==> s.calls[i].token in s.rows)
    && s.client.refresh in s.rows && 1 in s.rows
    && (forall i :: 0 <= i < |s.calls| && s.calls[i].phase.Succeeded? ==> s.calls[i].phase.pair.refresh in s.rows)
    && (forall t :: t in s.threads && IsWriting(s.threads[t]) ==> s.threads[t].pair.refresh in s.rows)
  }

  lemma ClientKeepsCallsFit(s: State, t: Thread, op: ClientOp)
    requires CallsFit(s)
    ensures CallsFit(ClientStep(s, t, op))
  {
  }

  lemma ServerKeepsCallsFit(s: State, i: nat, op: ServerOp)
    requires CallsFit(s)
    ensures CallsFit(ServerStep(s, i, op))
  {
  }

  /** The client spends nothing. */
  lemma ClientSpendsNothing(s: State, t: Thread, op: ClientOp, j: Jti)
    ensures IsSpent(ClientStep(s, t, op), j) <==> IsSpent(s, j)
  {
    ClientFrame(s, t, op);
    var s' := ClientStep(s, t, op);
    hide ClientStep;
    if i :| 0 <= i < |s.calls| && s.calls[i].spent && s.calls[i].token == j {
      assert s'.calls[i].spent;
    }
  }

  lemma ClientKeepsPairs(s: State, t: Thread, op: ClientOp)
    requires RowsAgree(s)
    ensures var s' := ClientStep(s, t, op);
      && s'.client.refresh in s.rows
      && forall u :: u in s'.threads && IsWriting(s'.threads[u]) ==> s'.threads[u].pair.refresh in s.rows
  {
    hide IsSpent;
  }

  lemma ClientKeepsRows(s: State, t: Thread, op: ClientOp)
    requires RowsAgree(s)
    ensures RowsAgree(ClientStep(s, t, op))
  {
    var s' := ClientStep(s, t, op);
    forall j
      ensures IsSpent(s', j) <==> IsSpent(s, j)
    {
      ClientSpendsNothing(s, t, op, j);
    }
    ClientFrame(s, t, op);
    ClientKeepsPairs(s, t, op);
    hide IsSpent, ClientStep, IsWriting;
  }

  lemma ServerSpends(s: State, i: nat, op: ServerOp, j: Jti)
    ensures IsSpent(ServerStep(s, i, op), j) <==>
            || IsSpent(s, j)
            || (i < |s.calls| && op == RevokeRow(false) && s.calls[i].phase.Validated? && s.calls[i].token == j)
  {
    var s' := ServerStep(s, i, op);
    ServerFrame(s, i, op);
    if k :| 0 <= k < |s.calls| && s.calls[k].spent && s.calls[k].token == j {
      assert s'.calls[k].spent && s'.calls[k].token == j;
    }
    if i < |s.calls| && op == RevokeRow(false) && s.calls[i].phase.Validated? && s.calls[i].token == j {
      assert s'.calls[i].spent && s'.calls[i].token == j;
    }
  }

  /** Rows are only added under the next id, and only the token of a validated call is
      revoked. */
  lemma ServerRows(s: State, i: nat, op: ServerOp, j: Jti)
    ensures var s' := ServerStep(s, i, op);
      && (j in s'.rows <==> j in s.rows || (j == s.next < s'.next))
      && s.next <= s'.next <= s.next + 1
      && (j in s.rows && j < s.next ==>
            (s'.rows[j].revoked <==>
              || s.rows[j].revoked
              || (i < |s.calls| && op == RevokeRow(false) && s.calls[i].phase.Validated? && s.calls[i].token == j)))
      && (j == s.next < s'.next && j !in s.rows ==> !s'.rows[j].revoked)
  {
  }

  lemma ServerKeepsRows(s: State, i: nat, op: ServerOp)
    requires RowsAgree(s)
    ensures RowsAgree(ServerStep(s, i, op))
  {
    var s' := ServerStep(s, i, op);
    ServerFrame(s, i, op);
    ServerMakes(s, i, op);
    SpentIsRow(s, s.next);
    hide IsSpent, ServerStep, IsWriting;
    forall j: Jti
      ensures j in s.rows ==> j in s'.rows
      ensures j in s'.rows ==> j < s'.next && (s'.rows[j].revoked <==> IsSpent(s', j))
    {
      ServerSpends(s, i, op, j);
      ServerRows(s, i, op, j);
    }
    ServerRows(s, i, op, s.next);
  }

  lemma SpentIsRow(s: State, j: Jti)
    requires RowsAgree(s)
    ensures IsSpent(s, j) ==> j in s.rows
  {
  }

  // ----- single use

  /** The server has found the call's token unrevoked. */
  predicate Passed(c: RefreshCall) {
    c.phase.Validated? || c.spent
  }

  /** A spent token passes again only if the client gave up on the first call before that
      call had spent it. */
  predicate SingleUse(s: State) {
    forall i, j :: 0 <= i < j < |s.calls| && s.calls[i].spent && Passed(s.calls[j]) && s.calls[i].token == s.calls[j].token ==>
      s.calls[i].fate == GivenUp(false)
  }

  lemma ClientKeepsSingleUse(s: State, t: Thread, op: ClientOp)
    requires Exclusive(s) && OneAwaited(s) && SingleUse(s)
    ensures SingleUse(ClientStep(s, t, op))
  {
  }

  lemma ServerKeepsSingleUse(s: State, i: nat, op: ServerOp)
    requires Exclusive(s) && OneAwaited(s) && CallsFit(s) && RowsAgree(s) && SingleUse(s)
    ensures SingleUse(ServerStep(s, i, op))
  {
    ServerFrame(s, i, op);
    if i < |s.calls| && op.Validate? && s.calls[i].phase.Travelling? {
      ValidatesUnspent(s, i, op);
    }
    hide RowsAgree, IsSpent;
  }

  /** A call whose token was spent does not validate. */
  lemma ValidatesUnspent(s: State, i: nat, op: ServerOp)
    requires i < |s.calls| && op.Validate? && RowsAgree(s) && s.calls[i].phase.Travelling?
    ensures ServerStep(s, i, op).calls[i].phase.Validated? ==>
              forall k :: 0 <= k < |s.calls| && s.calls[k].spent ==> s.calls[k].token != s.calls[i].token
  {
  }

  // ----- the chain

  predicate MadeBy(c: RefreshCall, j: Jti) {
    c.phase.Succeeded? && c.phase.pair.refresh == j
  }

  /** The refresh tokens issued to this client. */
  predicate InChain(s: State, j: Jti) {
    j == 1 || exists i :: 0 <= i < |s.calls| && MadeBy(s.calls[i], j)
  }

  /** The refresh tokens that have reached the client. */
  predicate Known(s: State, j: Jti) {
    j == 1 || exists i :: 0 <= i < |s.calls| && MadeBy(s.calls[i], j) && s.calls[i].fate.Received?
  }

  /** The refresh token on its way to the client's field. */
  function Incoming(s: State): Option<Jti>
    requires Exclusive(s)
  {
    if s.lock.Some? && IsWriting(s.threads[s.lock.value]) then Some(s.threads[s.lock.value].pair.refresh) else None
  }

  predicate FreshTokens(s: State) {
    && 2 <= s.next
    && (forall i :: 0 <= i < |s.calls| && s.calls[i].phase.Succeeded? ==> 2 <= s.calls[i].phase.pair.refresh < s.next)
    && (forall i, k :: 0 <= i < k < |s.calls| && s.calls[i].phase.Succeeded? && s.calls[k].phase.Succeeded? ==>
          s.calls[i].phase.pair.refresh != s.calls[k].phase.pair.refresh)
  }

  /** Calls carry known tokens, and every known token except the one in the client's field
      or about to be written there is spent. */
  ghost predicate Tracks(s: State)
    requires Exclusive(s)
  {
    && (forall i :: 0 <= i < |s.calls| ==> Known(s, s.calls[i].token))
    && Known(s, s.client.refresh)
    && (Incoming(s).Some? ==> Known(s, Incoming(s).value) && IsSpent(s, s.client.refresh))
    && (forall j :: Known(s, j) ==> j == s.client.refresh || Incoming(s) == Some(j) || IsSpent(s, j))
  }

  lemma ClientKeepsFresh(s: State, t: Thread, op: ClientOp)
    requires FreshTokens(s)
    ensures FreshTokens(ClientStep(s, t, op))
  {
    ClientFrame(s, t, op);
    hide ClientStep;
  }

  lemma ServerKeepsFresh(s: State, i: nat, op: ServerOp)
    requires FreshTokens(s)
    ensures FreshTokens(ServerStep(s, i, op))
  {
    ServerFrame(s, i, op);
    ServerMakes(s, i, op);
    hide ServerStep;
  }

  /** A call that succeeds has the next unused id for its refresh token. */
  lemma ServerMakes(s: State, i: nat, op: ServerOp)
    ensures var s' := ServerStep(s, i, op);
      && s.next <= s'.next
      && (i < |s.calls| ==>
            if s.calls[i].phase.Succeeded? then s'.calls[i].phase == s.calls[i].phase
            else s'.calls[i].phase.Succeeded? ==> s'.calls[i].phase.pair.refresh == s.next < s'.next && s.next in s'.rows)
  {
  }

  lemma ServerKeepsKnown(s: State, i: nat, op: ServerOp, j: Jti)
    requires CallsFit(s)
    ensures Known(ServerStep(s, i, op), j) <==> Known(s, j)
  {
    var s' := ServerStep(s, i, op);
    ServerFrame(s, i, op);
    assert i < |s.calls| && s.calls[i].fate.Received? ==> s' == s;
    if k :| 0 <= k < |s.calls| && MadeBy(s.calls[k], j) && s.calls[k].fate.Received? {
      assert s'.calls[k] == s.calls[k];
    }
  }

  lemma ServerTracks(s: State, i: nat, op: ServerOp)
    requires Exclusive(s) && OneAwaited(s) && CallsFit(s) && Tracks(s)
    ensures Exclusive(ServerStep(s, i, op)) && Tracks(ServerStep(s, i, op))
  {
    hide Known, IsSpent, ServerStep, OneAwaited, CallsFit;
    var s' := ServerStep(s, i, op);
    ServerKeepsOneAwaited(s, i, op);
    ServerFrame(s, i, op);
    forall j: Jti
      ensures Known(s', j) <==> Known(s, j)
      ensures IsSpent(s, j) ==> IsSpent(s', j)
    {
      ServerKeepsKnown(s, i, op, j);
      ServerSpends(s, i, op, j);
    }
  }

  /** The token that thread `t` is about to learn. */
  function Learns(s: State, t: Thread, op: ClientOp): Option<Jti> {
    if op.Receive? && t in s.threads && IsWaiting(s, s.threads[t]) && s.calls[s.threads[t].call].phase.Succeeded? then
      Some(s.calls[s.threads[t].call].phase.pair.refresh)
    else None
  }

  lemma ClientReceives(s: State, t: Thread, op: ClientOp, k: nat)
    requires Exclusive(s) && OneAwaited(s) && k < |s.calls| && s.calls[k].phase.Succeeded?
    ensures ClientStep(s, t, op).calls[k].fate.Received? <==>
            s.calls[k].fate.Received? || (Learns(s, t, op).Some? && s.threads[t].call == k)
  {
  }

  lemma ClientLearns(s: State, t: Thread, op: ClientOp, j: Jti)
    requires Exclusive(s) && OneAwaited(s)
    ensures Known(ClientStep(s, t, op), j) <==> Known(s, j) || Learns(s, t, op) == Some(j)
  {
    var s' := ClientStep(s, t, op);
    ClientFrame(s, t, op);
    forall k: nat | k < |s.calls| && s.calls[k].phase.Succeeded?
      ensures s'.calls[k].fate.Received? <==>
              s.calls[k].fate.Received? || (Learns(s, t, op).Some? && s.threads[t].call == k)
    {
      ClientReceives(s, t, op, k);
    }
    hide ClientStep, OneAwaited, Exclusive;
    if k: nat :| k < |s.calls| && MadeBy(s.calls[k], j) && (s.calls[k].fate.Received? || Learns(s, t, op) == Some(j)) {
      if s.calls[k].fate.Received? {
        assert s'.calls[k].fate.Received?;
      }
    }
    if Learns(s, t, op) == Some(j) {
      assert MadeBy(s'.calls[s.threads[t].call], j) && s'.calls[s.threads[t].call].fate.Received?;
    }
  }

  /** The token learnt is on its way to the client's field, and then in it. */
  lemma ClientWrites(s: State, t: Thread, op: ClientOp)
    requires Exclusive(s) && OneAwaited(s)
    ensures var s' := ClientStep(s, t, op);
      && Exclusive(s')
      && (Learns(s, t, op).Some? ==> Incoming(s') == Learns(s, t, op) && s'.client == s.client && Incoming(s) == None)
      && (Learns(s, t, op).None? ==>
            || (s'.client.refresh == s.client.refresh && Incoming(s') == Incoming(s))
            || (Incoming(s) == Some(s'.client.refresh) && Incoming(s') == None))
      && (|s'.calls| > |s.calls| ==> Incoming(s') == None)
  {
    ClientKeepsLock(s, t, op);
  }

  lemma ClientTracks(s: State, t: Thread, op: ClientOp)
    requires Exclusive(s) && OneAwaited(s) && CallsFit(s) && Tracks(s)
    ensures Exclusive(ClientStep(s, t, op)) && Tracks(ClientStep(s, t, op))
  {
    hide Exclusive, OneAwaited, CallsFit, Known, IsSpent, ClientStep, Incoming, Learns;
    var s' := ClientStep(s, t, op);
    ClientWrites(s, t, op);
    ClientFrame(s, t, op);
    forall j: Jti
      ensures Known(s', j) <==> Known(s, j) || Learns(s, t, op) == Some(j)
      ensures IsSpent(s', j) <==> IsSpent(s, j)
    {
      ClientLearns(s, t, op, j);
      ClientSpendsNothing(s, t, op, j);
    }
    if Learns(s, t, op).Some? {
      AwaitedIsSpent(s, t, op);
    }
  }

  /** A successful call that is received has spent the client's token. */
  lemma AwaitedIsSpent(s: State, t: Thread, op: ClientOp)
    requires Exclusive(s) && OneAwaited(s) && CallsFit(s) && Learns(s, t, op).Some?
    ensures IsSpent(s, s.client.refresh)
  {
    assert s.lock == Some(t);
    assert s.calls[s.threads[t].call].spent;
  }

  /** The client has moved on from the token of every call whose new pair it has taken over;
      a token on its way is not one that any call presented. */
  predicate Advances(s: State)
    requires Exclusive(s)
  {
    && (Incoming(s).None? ==> forall i :: 0 <= i < |s.calls| && s.calls[i].phase.Succeeded? && s.calls[i].fate.Received? ==>
          s.calls[i].token != s.client.refresh)
    && (Incoming(s).Some? ==> forall i :: 0 <= i < |s.calls| ==> s.calls[i].token != Incoming(s).value)
  }

  lemma ServerAdvances(s: State, i: nat, op: ServerOp)
    requires Exclusive(s) && OneAwaited(s) && CallsFit(s) && Advances(s)
    ensures Exclusive(ServerStep(s, i, op)) && Advances(ServerStep(s, i, op))
  {
    ServerKeepsOneAwaited(s, i, op);
    ServerFrame(s, i, op);
    ServerMakes(s, i, op);
    hide ServerStep, OneAwaited;
  }

  /** What is learnt was not known. */
  lemma LearnsNew(s: State, t: Thread, op: ClientOp)
    requires Exclusive(s) && OneAwaited(s) && FreshTokens(s) && Learns(s, t, op).Some?
    ensures !Known(s, Learns(s, t, op).value)
  {
    assert s.calls[s.threads[t].call].fate.Awaited?;
    assert forall k :: 0 <= k < |s.calls| && MadeBy(s.calls[k], Learns(s, t, op).value) ==> k == s.threads[t].call;
  }

  lemma {:induction false} ClientAdvances(s: State, t: Thread, op: ClientOp)
    requires Exclusive(s) && OneAwaited(s) && FreshTokens(s) && Tracks(s) && Advances(s)
    ensures Exclusive(ClientStep(s, t, op)) && Advances(ClientStep(s, t, op))
  {
    hide Exclusive, OneAwaited, FreshTokens, Known, IsSpent, ClientStep, Incoming, Learns;
    var s' := ClientStep(s, t, op);
    ClientWrites(s, t, op);
    ClientFrame(s, t, op);
    if Learns(s, t, op).Some? {
      LearnsNew(s, t, op);
    } else {
      forall k: nat | k < |s.calls| && s.calls[k].phase.Succeeded?
        ensures s'.calls[k].fate.Received? <==> s.calls[k].fate.Received?
      {
        ClientReceives(s, t, op, k);
      }
    }
  }

  // ----- every run

  ghost predicate Holds(s: State) {
    Exclusive(s) && OneAwaited(s) && CallsFit(s) && RowsAgree(s) && SingleUse(s) && FreshTokens(s) && Tracks(s) && Advances(s)
  }

  lemma {:induction false} NextHolds(s: State, l: Step)
    requires Holds(s)
    ensures Holds(Next(s, l))
  {
    hide Exclusive, OneAwaited, CallsFit, RowsAgree, SingleUse, FreshTokens, Tracks, Advances, ClientStep, ServerStep;
    match l
    case OfClient(t, op) =>
      ClientKeepsOneAwaited(s, t, op);
      ClientKeepsCallsFit(s, t, op);
      ClientKeepsRows(s, t, op);
      ClientKeepsSingleUse(s, t, op);
      ClientKeepsFresh(s, t, op);
      ClientTracks(s, t, op);
      ClientAdvances(s, t, op);
    case OfServer(i, op) =>
      ServerKeepsOneAwaited(s, i, op);
      ServerKeepsCallsFit(s, i, op);
      ServerKeepsRows(s, i, op);
      ServerKeepsSingleUse(s, i, op);
      ServerKeepsFresh(s, i, op);
      ServerTracks(s, i, op);
      ServerAdvances(s, i, op);
  }

  lemma {:induction false} EveryRunHolds(expiresAt: Time, refreshExpiry: Time, steps: seq<Step>)
    ensures Holds(Run(expiresAt, refreshExpiry, steps))
    decreases |steps|
  {
    if steps == [] {
    } else {
      EveryRunHolds(expiresAt, refreshExpiry, steps[..|steps| - 1]);
      NextHolds(Run(expiresAt, refreshExpiry, steps[..|steps| - 1]), steps[|steps| - 1]);
      hide Next, Holds;
    }
  }

  predicate Answered(c: RefreshCall) {
    c.phase.Succeeded? || c.phase.Failed?
  }
}
