/** What the client makes of its refresh calls: the tokens it holds, the times at which it
    refreshes them, and what each of its threads does. */
module RefreshClient {
  import opened Ids
  import opened RefreshChain
  import opened TokenService
  import opened Wrappers

  // ----- the tokens the client holds

  /** What a call gave the client, if it succeeded and its reply arrived. */
  function Taken(c: RefreshCall): Option<Client> {
    if c.phase.Succeeded? && c.fate.Received? then
      Some(Client(c.phase.pair.access, c.phase.pair.refresh, c.phase.expiresAt))
    else None
  }

  /** What the last of the first `n` calls that gave the client anything gave it. */
  function HeldBefore(calls: seq<RefreshCall>, n: nat, init: Client): Client
    requires n <= |calls|
  {
    if n == 0 then init
    else if Taken(calls[n - 1]).Some? then Taken(calls[n - 1]).value
    else HeldBefore(calls, n - 1, init)
  }

  lemma {:induction false} HeldSame(a: seq<RefreshCall>, b: seq<RefreshCall>, n: nat, init: Client)
    requires n <= |a| && n <= |b|
    requires forall k :: 0 <= k < n ==> Taken(a[k]) == Taken(b[k])
    ensures HeldBefore(a, n, init) == HeldBefore(b, n, init)
  {
    hide Taken;
    if n == 0 {
    } else {
      HeldSame(a, b, n - 1, init);
    }
  }

  predicate IsSetting(pc: Pc) {
    pc.SettingAccess? || pc.SettingRefresh? || pc.SettingExpiry?
  }

  function HolderPc(s: State): Pc
    requires Exclusive(s)
  {
    if s.lock.Some? then s.threads[s.lock.value] else Done
  }

  /** The client while a thread writes down what a call gave it: `before` it was, `pc` says
      how far the thread is. */
  function PartlySet(before: Client, pc: Pc): Client
    requires IsSetting(pc)
  {
    match pc
    case SettingAccess(_, _, _) => before
    case SettingRefresh(_, pair, _) => before.(access := pair.access)
    case SettingExpiry(_, pair, _) => before.(access := pair.access, refresh := pair.refresh)
  }

  predicate HoldsWhatItTook(s: State, init: Client)
    requires Exclusive(s)
  {
    var n, pc := |s.calls|, HolderPc(s);
    if IsSetting(pc) then
      && n > 0 && Taken(s.calls[n - 1]) == Some(Client(pc.pair.access, pc.pair.refresh, pc.expiresAt))
      && s.client == PartlySet(HeldBefore(s.calls, n - 1, init), pc)
    else s.client == HeldBefore(s.calls, n, init)
  }

  /** Each call presented the refresh token held when it was sent, and was sent no earlier
      than a minute before the access token held then expires. */
  predicate SentWhenDue(calls: seq<RefreshCall>, init: Client) {
    forall j :: 0 <= j < |calls| ==>
      var held := HeldBefore(calls, j, init); calls[j].token == held.refresh && calls[j].sentAt + 60 > held.expiresAt
  }

  lemma {:induction false} StillSentWhenDue(a: seq<RefreshCall>, b: seq<RefreshCall>, init: Client)
    requires SentWhenDue(a, init) && |b| == |a|
    requires forall k :: 0 <= k < |a| ==> b[k].token == a[k].token && b[k].sentAt == a[k].sentAt
    requires forall k :: 0 <= k < |a| - 1 ==> Taken(a[k]) == Taken(b[k])
    ensures SentWhenDue(b, init)
  {
    hide Taken, HeldBefore;
    forall j | 0 <= j < |b|
      ensures HeldBefore(b, j, init) == HeldBefore(a, j, init)
    {
      HeldSame(a, b, j, init);
    }
  }

  // ----- steps

  lemma ServerTakesNothing(s: State, i: nat, op: ServerOp, k: nat)
    requires CallsFit(s) && k < |s.calls|
    ensures var s' := ServerStep(s, i, op);
      && |s'.calls| == |s.calls| && Taken(s'.calls[k]) == Taken(s.calls[k])
      && s'.calls[k].token == s.calls[k].token && s'.calls[k].sentAt == s.calls[k].sentAt
  {
    assert Fits(s.calls[k]);
  }

  lemma {:induction false} ServerKeepsClient(s: State, i: nat, op: ServerOp, init: Client)
    requires Exclusive(s) && OneAwaited(s) && CallsFit(s)
    requires HoldsWhatItTook(s, init) && SentWhenDue(s.calls, init)
    ensures var s' := ServerStep(s, i, op); Exclusive(s') && HoldsWhatItTook(s', init) && SentWhenDue(s'.calls, init)
  {
    hide CallsFit, OneAwaited, Taken, SentWhenDue, HeldBefore, ServerStep;
    var s' := ServerStep(s, i, op);
    ServerKeepsOneAwaited(s, i, op);
    ServerFrame(s, i, op);
    forall k: nat | k < |s.calls|
      ensures Taken(s'.calls[k]) == Taken(s.calls[k])
      ensures s'.calls[k].token == s.calls[k].token && s'.calls[k].sentAt == s.calls[k].sentAt
    {
      ServerTakesNothing(s, i, op, k);
    }
    StillSentWhenDue(s.calls, s'.calls, init);
    HeldSame(s.calls, s'.calls, |s.calls|, init);
    if s.calls != [] {
      HeldSame(s.calls, s'.calls, |s.calls| - 1, init);
    }
  }

  /** Steps that neither send a refresh call, nor end one, nor write to the client. */
  lemma QuietStep(s: State, t: Thread, op: ClientOp, init: Client)
    requires Exclusive(s) && HoldsWhatItTook(s, init)
    requires op.Start? || op.Lock? || op.Request? || (op.Check? && IsExpired(s.client, op.now) == false)
    ensures var s' := ClientStep(s, t, op); Exclusive(s') && s'.calls == s.calls && HoldsWhatItTook(s', init)
  {
    hide HeldBefore, Taken;
    ClientKeepsLock(s, t, op);
  }

  /** Thread `t` is in the critical section, about to test expiry. */
  lemma {:induction false} SendsWhenDue(s: State, t: Thread, now: Time, init: Client)
    requires Exclusive(s) && HoldsWhatItTook(s, init) && SentWhenDue(s.calls, init)
    requires t in s.threads && s.threads[t].Checking? && IsExpired(s.client, now)
    ensures var s' := ClientStep(s, t, Check(now)); Exclusive(s') && HoldsWhatItTook(s', init) && SentWhenDue(s'.calls, init)
  {
    hide HeldBefore;
    var s' := ClientStep(s, t, Check(now));
    ClientKeepsLock(s, t, Check(now));
    var n := |s.calls|;
    forall j | 0 <= j <= n
      ensures HeldBefore(s'.calls, j, init) == HeldBefore(s.calls, j, init)
    {
      HeldSame(s.calls, s'.calls, j, init);
    }
    HeldAfterUntaken(s'.calls, n + 1, init);
  }

  lemma HeldAfterUntaken(calls: seq<RefreshCall>, n: nat, init: Client)
    requires 0 < n <= |calls|
    ensures Taken(calls[n - 1]).None? ==> HeldBefore(calls, n, init) == HeldBefore(calls, n - 1, init)
    ensures Taken(calls[n - 1]).Some? ==> HeldBefore(calls, n, init) == Taken(calls[n - 1]).value
  {
  }

  /** Thread `t` waits for the newest call, and gives up on it or receives its reply. */
  lemma {:induction false} EndsCall(s: State, t: Thread, op: ClientOp, init: Client)
    requires Exclusive(s) && OneAwaited(s) && HoldsWhatItTook(s, init) && SentWhenDue(s.calls, init)
    requires t in s.threads && IsWaiting(s, s.threads[t]) && (op.GiveUp? || op.Receive?)
    ensures var s' := ClientStep(s, t, op); Exclusive(s') && HoldsWhatItTook(s', init) && SentWhenDue(s'.calls, init)
  {
    hide HeldBefore, SentWhenDue, OneAwaited, AfterFailure, Trail;
    var s' := ClientStep(s, t, op);
    var n := |s.calls|;
    ClientKeepsLock(s, t, op);
    AwaitedIsNewest(s, t);
    StillSentWhenDue(s.calls, s'.calls, init);
    HeldSame(s.calls, s'.calls, n - 1, init);
    HeldAfterUntaken(s.calls, n, init);
    HeldAfterUntaken(s'.calls, n, init);
  }

  lemma AwaitedIsNewest(s: State, t: Thread)
    requires Exclusive(s) && OneAwaited(s) && t in s.threads && IsWaiting(s, s.threads[t])
    ensures s.threads[t].call == |s.calls| - 1 && s.calls[|s.calls| - 1].fate.Awaited?
  {
  }

  /** Thread `t` writes down what it received. */
  lemma {:induction false} WritesWhatItTook(s: State, t: Thread, init: Client)
    requires Exclusive(s) && HoldsWhatItTook(s, init)
    requires t in s.threads && IsSetting(s.threads[t])
    ensures var s' := ClientStep(s, t, Write); Exclusive(s') && s'.calls == s.calls && HoldsWhatItTook(s', init)
  {
    hide HeldBefore, Taken;
    ClientKeepsLock(s, t, Write);
    if s.calls != [] {
      HeldAfterUntaken(s.calls, |s.calls|, init);
    }
  }

  /** The step is one that its thread can take. */
  predicate CanStep(s: State, t: Thread, op: ClientOp) {
    if op.Start? then t !in s.threads
    else
      && t in s.threads
      && match op
         case Start => false
         case Lock => s.threads[t].Wanting? && s.lock.None?
         case Check(_) => s.threads[t].Checking?
         case GiveUp => IsWaiting(s, s.threads[t])
         case Receive => IsWaiting(s, s.threads[t])
         case Write => IsSetting(s.threads[t])
         case Request(_) => s.threads[t].Ready?
  }

  lemma OtherwiseNothing(s: State, t: Thread, op: ClientOp)
    requires !CanStep(s, t, op)
    ensures ClientStep(s, t, op) == s
  {
  }

  lemma {:induction false} ClientKeepsClient(s: State, t: Thread, op: ClientOp, init: Client)
    requires Exclusive(s) && OneAwaited(s) && HoldsWhatItTook(s, init) && SentWhenDue(s.calls, init)
    ensures var s' := ClientStep(s, t, op); Exclusive(s') && HoldsWhatItTook(s', init) && SentWhenDue(s'.calls, init)
  {
    hide Exclusive, OneAwaited, HoldsWhatItTook, SentWhenDue, ClientStep, IsSetting, IsWaiting, IsExpired;
    if !CanStep(s, t, op) {
      OtherwiseNothing(s, t, op);
    } else if op.Check? && IsExpired(s.client, op.now) {
      SendsWhenDue(s, t, op.now, init);
    } else if op.GiveUp? || op.Receive? {
      EndsCall(s, t, op, init);
    } else if op.Write? {
      WritesWhatItTook(s, t, init);
    } else {
      QuietStep(s, t, op, init);
    }
  }

  /** A thread that has taken the lock sends a refresh call if the access token expires within
      a minute; otherwise it leaves the token and the calls alone and goes on. */
  lemma RefreshesExactlyWhenDue(s: State, t: Thread, now: Time)
    requires t in s.threads && s.threads[t].Checking?
    ensures var s' := ClientStep(s, t, Check(now));
      && s'.client == s.client
      && (|s'.calls| == |s.calls| + 1 <==> s.client.expiresAt < now + 60)
      && (|s'.calls| != |s.calls| + 1 ==> s'.calls == s.calls && s'.lock.None? && s'.threads[t] == Ready(s.threads[t].again))
  {
  }

  // ----- every run

  ghost predicate ClientHolds(s: State, init: Client) {
    Exclusive(s) && HoldsWhatItTook(s, init) && SentWhenDue(s.calls, init)
  }

  lemma {:induction false} EveryRunKeepsClient(expiresAt: Time, refreshExpiry: Time, steps: seq<Step>)
    ensures ClientHolds(Run(expiresAt, refreshExpiry, steps), Client(0, 1, expiresAt))
    decreases |steps|
  {
    hide Exclusive, OneAwaited, CallsFit, RowsAgree, SingleUse, FreshTokens, Tracks, Advances,
      HoldsWhatItTook, SentWhenDue, ClientStep, ServerStep;
    if steps == [] {
      LoginHolds(expiresAt, refreshExpiry);
    } else {
      var front, l := steps[..|steps| - 1], steps[|steps| - 1];
      var s, init := Run(expiresAt, refreshExpiry, front), Client(0, 1, expiresAt);
      EveryRunKeepsClient(expiresAt, refreshExpiry, front);
      EveryRunHolds(expiresAt, refreshExpiry, front);
      match l
      case OfClient(t, op) => ClientKeepsClient(s, t, op, init);
      case OfServer(i, op) => ServerKeepsClient(s, i, op, init);
    }
  }

  lemma LoginHolds(expiresAt: Time, refreshExpiry: Time)
    ensures ClientHolds(Init(expiresAt, refreshExpiry), Client(0, 1, expiresAt))
  {
  }

  /** Whenever the lock is free, the client holds the pair and the expiry that the last call
      to succeed and arrive gave it, or those of the login. */
  lemma {:induction false} ClientHoldsTheLastPair(expiresAt: Time, refreshExpiry: Time, steps: seq<Step>, i: nat)
    requires var s := Run(expiresAt, refreshExpiry, steps); s.lock.None? && i <= |s.calls|
    requires var s := Run(expiresAt, refreshExpiry, steps);
      && (i > 0 ==> s.calls[i - 1].phase.Succeeded? && s.calls[i - 1].fate.Received?)
      && (forall k :: i <= k < |s.calls| ==> !(s.calls[k].phase.Succeeded? && s.calls[k].fate.Received?))
    ensures var s := Run(expiresAt, refreshExpiry, steps);
      s.client == if i == 0 then Client(0, 1, expiresAt)
                  else var got := s.calls[i - 1].phase; Client(got.pair.access, got.pair.refresh, got.expiresAt)
  {
    hide Run;
    var s := Run(expiresAt, refreshExpiry, steps);
    EveryRunKeepsClient(expiresAt, refreshExpiry, steps);
    LastTaken(s.calls, |s.calls|, i, Client(0, 1, expiresAt));
  }

  lemma {:induction false} LastTaken(calls: seq<RefreshCall>, n: nat, i: nat, init: Client)
    requires i <= n <= |calls|
    requires forall k :: i <= k < n ==> Taken(calls[k]).None?
    ensures HeldBefore(calls, n, init) == HeldBefore(calls, i, init)
  {
    if i < n {
      LastTaken(calls, n - 1, i, init);
    }
  }

  // ----- the expiry that the client goes by

  /** The access token that a call has made has the row that the call's reply tells of. */
  predicate IsGranted(rows: Table, c: RefreshCall) {
    && (c.phase.HalfMade? ==> IsAccessRow(rows, c.phase.access, c.phase.expiresAt))
    && (c.phase.Succeeded? ==> IsAccessRow(rows, c.phase.pair.access, c.phase.expiresAt))
  }

  predicate IsAccessRow(rows: Table, j: Jti, expiresAt: Time) {
    j in rows && rows[j].kind == Access && rows[j].expiresAt == expiresAt
  }

  predicate GrantsAreRows(s: State, init: Client) {
    && IsAccessRow(s.rows, init.access, init.expiresAt)
    && (forall j :: j in s.rows ==> j < s.next)
    && (forall i :: 0 <= i < |s.calls| ==> IsGranted(s.rows, s.calls[i]))
  }

  lemma ServerKeepsRow(s: State, i: nat, op: ServerOp, j: Jti, expiresAt: Time)
    requires forall j' :: j' in s.rows ==> j' < s.next
    ensures IsAccessRow(s.rows, j, expiresAt) ==> IsAccessRow(ServerStep(s, i, op).rows, j, expiresAt)
    ensures j in ServerStep(s, i, op).rows ==> j < ServerStep(s, i, op).next
  {
  }

  lemma ServerGrants(s: State, i: nat, op: ServerOp)
    requires i < |s.calls| && IsGranted(s.rows, s.calls[i])
    requires forall j :: j in s.rows ==> j < s.next
    ensures IsGranted(ServerStep(s, i, op).rows, ServerStep(s, i, op).calls[i])
  {
  }

  lemma {:induction false} ServerKeepsGrants(s: State, i: nat, op: ServerOp, init: Client)
    requires GrantsAreRows(s, init)
    ensures GrantsAreRows(ServerStep(s, i, op), init)
  {
    hide ServerStep, IsAccessRow;
    var s' := ServerStep(s, i, op);
    ServerFrame(s, i, op);
    forall j: Jti, expiresAt: Time
      ensures IsAccessRow(s.rows, j, expiresAt) ==> IsAccessRow(s'.rows, j, expiresAt)
    {
      ServerKeepsRow(s, i, op, j, expiresAt);
    }
    forall j | j in s'.rows
      ensures j < s'.next
    {
      ServerKeepsRow(s, i, op, j, 0);
    }
    if i < |s.calls| {
      assert IsGranted(s.rows, s.calls[i]);
      ServerGrants(s, i, op);
    }
    forall k | 0 <= k < |s.calls| && k != i
      ensures IsGranted(s'.rows, s'.calls[k])
    {
      assert IsGranted(s.rows, s.calls[k]);
    }
  }

  lemma ClientKeepsGrants(s: State, t: Thread, op: ClientOp, init: Client)
    requires GrantsAreRows(s, init)
    ensures GrantsAreRows(ClientStep(s, t, op), init)
  {
    ClientFrame(s, t, op);
    hide ClientStep, IsAccessRow;
    var s' := ClientStep(s, t, op);
    forall k | 0 <= k < |s'.calls|
      ensures IsGranted(s'.rows, s'.calls[k])
    {
      if k < |s.calls| {
        assert IsGranted(s.rows, s.calls[k]);
      }
    }
  }

  lemma {:induction false} EveryRunKeepsGrants(expiresAt: Time, refreshExpiry: Time, steps: seq<Step>)
    ensures GrantsAreRows(Run(expiresAt, refreshExpiry, steps), Client(0, 1, expiresAt))
    decreases |steps|
  {
    if steps == [] {
    } else {
      var front, l := steps[..|steps| - 1], steps[|steps| - 1];
      var s, init := Run(expiresAt, refreshExpiry, front), Client(0, 1, expiresAt);
      EveryRunKeepsGrants(expiresAt, refreshExpiry, front);
      hide GrantsAreRows, ClientStep, ServerStep;
      match l
      case OfClient(t, op) => ClientKeepsGrants(s, t, op, init);
      case OfServer(i, op) => ServerKeepsGrants(s, i, op, init);
    }
  }

  lemma {:induction false} HeldIsRow(s: State, n: nat, init: Client)
    requires GrantsAreRows(s, init) && n <= |s.calls|
    ensures var held := HeldBefore(s.calls, n, init); IsAccessRow(s.rows, held.access, held.expiresAt)
    decreases n
  {
    hide IsAccessRow;
    if n == 0 {
    } else {
      HeldIsRow(s, n - 1, init);
      assert IsGranted(s.rows, s.calls[n - 1]);
    }
  }

  /** Whenever the lock is free, the expiry that the client goes by is the one in the row of
      the access token it holds. */
  lemma ExpiryIsTheRows(expiresAt: Time, refreshExpiry: Time, steps: seq<Step>)
    requires Run(expiresAt, refreshExpiry, steps).lock.None?
    ensures var s := Run(expiresAt, refreshExpiry, steps);
      && s.client.access in s.rows
      && s.rows[s.client.access].kind == Access && s.rows[s.client.access].expiresAt == s.client.expiresAt
  {
    hide Run, HeldBefore;
    var s := Run(expiresAt, refreshExpiry, steps);
    EveryRunKeepsClient(expiresAt, refreshExpiry, steps);
    EveryRunKeepsGrants(expiresAt, refreshExpiry, steps);
    HeldIsRow(s, |s.calls|, Client(0, 1, expiresAt));
  }

  // ----- what a thread does

  /** Made sure or tried to, asked, and was refused. */
  predicate IsRefused(trail: seq<Event>) {
    |trail| == 2 && trail[0].Ensured? && trail[1].Asked? && trail[1].unauthorized
  }

  predicate IsComplete(trail: seq<Event>) {
    || (|trail| == 2 && trail[0].Ensured? && trail[1].Asked? && !trail[1].unauthorized)
    || (|trail| == 3 && IsRefused(trail[..2]) && trail[2] == Ensured(false))
    || (|trail| == 4 && IsRefused(trail[..2]) && trail[2] == Ensured(true) && trail[3].Asked?)
  }

  predicate OnTrack(trail: seq<Event>, pc: Pc) {
    if pc.Done? then IsComplete(trail)
    else if pc.Ready? then
      if pc.again then |trail| == 3 && IsRefused(trail[..2]) && trail[2] == Ensured(true)
      else |trail| == 1 && trail[0].Ensured?
    else if pc.again then IsRefused(trail)
    else trail == []
  }

  predicate ThreadsOnTrack(s: State) {
    && (forall t :: t in s.threads ==> OnTrack(Trail(s, t), s.threads[t]))
    && (forall t :: t in s.trails ==> t in s.threads)
  }

  /** A step moves its own thread only. */
  lemma MovesOneThread(s: State, t: Thread, op: ClientOp)
    ensures var s' := ClientStep(s, t, op);
      s'.threads == s.threads || (t in s'.threads && s'.threads == s.threads[t := s'.threads[t]])
  {
    hide AfterFailure, IsExpired, Trail;
    match op
    case Receive =>
    case Write =>
    case _ =>
  }

  /** It notes at most one event, and a request carries the token the client holds. */
  lemma NotesOneEvent(s: State, t: Thread, op: ClientOp)
    ensures var s' := ClientStep(s, t, op);
      || s'.trails == s.trails
      || (&& t in s'.threads && t in s'.trails && s'.trails == s.trails[t := s'.trails[t]]
          && exists e :: s'.trails[t] == Trail(s, t) + [e] && (e.Asked? ==> e.access == s.client.access))
  {
    hide AfterFailure, IsExpired;
    if t in s.threads {
      var done, failed, asked := Ensured(true), Ensured(false), Asked(s.client.access, op.Request? && op.unauthorized);
      var before, after := Trail(s, t), Trail(ClientStep(s, t, op), t);
      assert after == before || after == before + [done] || after == before + [failed] || after == before + [asked];
    }
  }

  lemma {:induction false} TrailGrows(s: State, t: Thread, op: ClientOp)
    requires ThreadsOnTrack(s)
    ensures var s' := ClientStep(s, t, op);
      && (forall u :: u != t ==> Trail(s', u) == Trail(s, u) && (u in s'.threads <==> u in s.threads))
      && (forall u :: u != t && u in s.threads ==> s'.threads[u] == s.threads[u])
      && (forall u :: u in s'.trails ==> u in s'.threads)
  {
    hide OnTrack, ClientStep;
    MovesOneThread(s, t, op);
    NotesOneEvent(s, t, op);
  }

  lemma ThreadStaysOnTrack(s: State, t: Thread, op: ClientOp)
    requires t in s.threads ==> OnTrack(Trail(s, t), s.threads[t])
    requires t !in s.threads ==> t !in s.trails
    ensures var s' := ClientStep(s, t, op); t in s'.threads ==> OnTrack(Trail(s', t), s'.threads[t])
  {
    hide IsExpired;
    var trail := Trail(s, t);
    assert forall e: Event :: (trail + [e])[..|trail|] == trail;
  }

  lemma {:induction false} EveryThreadIsOnTrack(expiresAt: Time, refreshExpiry: Time, steps: seq<Step>)
    ensures ThreadsOnTrack(Run(expiresAt, refreshExpiry, steps))
    decreases |steps|
  {
    if steps == [] {
    } else {
      var front, l := steps[..|steps| - 1], steps[|steps| - 1];
      var s := Run(expiresAt, refreshExpiry, front);
      EveryThreadIsOnTrack(expiresAt, refreshExpiry, front);
      hide OnTrack, ClientStep, ServerStep;
      match l
      case OfClient(t, op) => TrailGrows(s, t, op); ThreadStaysOnTrack(s, t, op);
      case OfServer(i, op) => ServerFrame(s, i, op);
    }
  }

  /** A finished thread has asked once, whether or not it could make sure of its token; or
      it was refused, and then asked exactly once more if it could make sure of the token
      again, and not at all if it could not. */
  lemma FinishedThreadsAsked(expiresAt: Time, refreshExpiry: Time, steps: seq<Step>, t: Thread)
    requires var s := Run(expiresAt, refreshExpiry, steps); t in s.threads && s.threads[t].Done?
    ensures var trail := Trail(Run(expiresAt, refreshExpiry, steps), t);
      && 2 <= |trail| <= 4 && trail[0].Ensured? && trail[1].Asked?
      && (|trail| == 2 <==> !trail[1].unauthorized)
      && (|trail| > 2 ==> trail[2].Ensured? && (trail[2].ok <==> |trail| == 4))
      && (|trail| == 4 ==> trail[3].Asked?)
  {
    hide Run;
    EveryThreadIsOnTrack(expiresAt, refreshExpiry, steps);
  }

  // ----- the tokens requests carry

  /** Some reply has brought the client this access token, or it logged in with it. */
  predicate WasHeld(s: State, access: Jti, init: Client) {
    access == init.access || exists i :: 0 <= i < |s.calls| && BroughtAccess(s.calls[i], access)
  }

  predicate BroughtAccess(c: RefreshCall, access: Jti) {
    Taken(c).Some? && Taken(c).value.access == access
  }

  lemma {:induction false} HeldWasHeld(s: State, n: nat, init: Client)
    requires n <= |s.calls|
    ensures WasHeld(s, HeldBefore(s.calls, n, init).access, init)
    decreases n
  {
    hide Taken;
    if n == 0 {
    } else {
      HeldWasHeld(s, n - 1, init);
      if Taken(s.calls[n - 1]).Some? {
        assert BroughtAccess(s.calls[n - 1], Taken(s.calls[n - 1]).value.access);
      }
    }
  }

  lemma {:induction false} ClientWasHeld(s: State, init: Client)
    requires Exclusive(s) && HoldsWhatItTook(s, init)
    ensures WasHeld(s, s.client.access, init)
  {
    hide HeldBefore, WasHeld, Taken;
    var n := |s.calls|;
    HeldWasHeld(s, n, init);
    if IsSetting(HolderPc(s)) {
      HeldWasHeld(s, n - 1, init);
      HeldAfterUntaken(s.calls, n, init);
    }
  }

  predicate AskedWithHeld(s: State, init: Client) {
    forall t, k :: t in s.trails && 0 <= k < |s.trails[t]| && s.trails[t][k].Asked? ==> WasHeld(s, s.trails[t][k].access, init)
  }

  lemma ClientLeavesTaken(s: State, t: Thread, op: ClientOp, i: nat)
    requires Exclusive(s) && OneAwaited(s) && i < |s.calls| && Taken(s.calls[i]).Some?
    ensures i < |ClientStep(s, t, op).calls| && Taken(ClientStep(s, t, op).calls[i]) == Taken(s.calls[i])
  {
    if t in s.threads && IsWaiting(s, s.threads[t]) {
      AwaitedIsNewest(s, t);
    }
    hide Exclusive, OneAwaited;
  }

  lemma {:induction false} TakenStays(s: State, l: Step, i: nat)
    requires Exclusive(s) && OneAwaited(s) && CallsFit(s) && i < |s.calls| && Taken(s.calls[i]).Some?
    ensures i < |Next(s, l).calls| && Taken(Next(s, l).calls[i]) == Taken(s.calls[i])
  {
    hide Exclusive, OneAwaited, CallsFit, Taken, ClientStep, ServerStep;
    match l
    case OfClient(t, op) => ClientLeavesTaken(s, t, op, i);
    case OfServer(k, op) => ServerTakesNothing(s, k, op, i);
  }

  /** What was held stays so. */
  lemma {:induction false} HeldStays(s: State, l: Step, access: Jti, init: Client)
    requires Exclusive(s) && OneAwaited(s) && CallsFit(s) && WasHeld(s, access, init)
    ensures WasHeld(Next(s, l), access, init)
  {
    hide Next, Exclusive, OneAwaited, CallsFit, Taken;
    if access != init.access {
      var i: nat :| i < |s.calls| && BroughtAccess(s.calls[i], access);
      TakenStays(s, l, i);
      assert BroughtAccess(Next(s, l).calls[i], access);
    }
  }

  /** An event of a trail was there before the step, or is a request with the client's token. */
  lemma {:induction false} AsksWithClient(s: State, l: Step, t: Thread, k: nat)
    requires t in Next(s, l).trails && k < |Next(s, l).trails[t]|
    ensures var e := Next(s, l).trails[t][k];
      (t in s.trails && k < |s.trails[t]| && s.trails[t][k] == e) || (e.Asked? ==> e.access == s.client.access)
  {
    hide ClientStep, ServerStep;
    match l
    case OfClient(u, op) => NotesOneEvent(s, u, op);
    case OfServer(i, op) => ServerFrame(s, i, op);
  }

  lemma {:induction false} NextAsksWithHeld(s: State, l: Step, init: Client)
    requires Exclusive(s) && OneAwaited(s) && CallsFit(s) && HoldsWhatItTook(s, init) && AskedWithHeld(s, init)
    ensures AskedWithHeld(Next(s, l), init)
  {
    hide Next, Exclusive, OneAwaited, CallsFit, HoldsWhatItTook, WasHeld;
    var s' := Next(s, l);
    ClientWasHeld(s, init);
    forall t, k | t in s'.trails && 0 <= k < |s'.trails[t]| && s'.trails[t][k].Asked?
      ensures WasHeld(s', s'.trails[t][k].access, init)
    {
      AsksWithClient(s, l, t, k);
      HeldStays(s, l, s'.trails[t][k].access, init);
    }
  }

  /** No request carries an access token other than the one of the login and those that a
      refresh call's reply has brought. */
  lemma {:induction false} RequestsCarryHeldTokens(expiresAt: Time, refreshExpiry: Time, steps: seq<Step>)
    ensures AskedWithHeld(Run(expiresAt, refreshExpiry, steps), Client(0, 1, expiresAt))
    decreases |steps|
  {
    hide Exclusive, OneAwaited, CallsFit, RowsAgree, SingleUse, FreshTokens, Tracks, Advances,
      HoldsWhatItTook, SentWhenDue, Next, WasHeld;
    if steps == [] {
      assert Run(expiresAt, refreshExpiry, steps).trails == map[];
    } else {
      var front, l := steps[..|steps| - 1], steps[|steps| - 1];
      var s, init := Run(expiresAt, refreshExpiry, front), Client(0, 1, expiresAt);
      RequestsCarryHeldTokens(expiresAt, refreshExpiry, front);
      EveryRunHolds(expiresAt, refreshExpiry, front);
      EveryRunKeepsClient(expiresAt, refreshExpiry, front);
      NextAsksWithHeld(s, l, init);
    }
  }
}
