/** How a refresh token comes to be spent twice. */
module DoubleSpending {
  import opened Ids
  import opened RefreshChain
  import opened TokenService
  import opened Wrappers

  /** Call `i` validates, and the client gives up on it. */
  lemma GivesUp(s: State, t: Thread, i: nat, now: Time)
    requires Exclusive(s) && OneAwaited(s) && CallsFit(s)
    requires CanSpend(s, t, i, now)
    ensures var s' := ClientStep(ServerStep(s, i, Validate(true, now, false)), t, GiveUp);
      && s'.rows == s.rows && s'.client == s.client && s'.lock == None && s'.threads.Keys == s.threads.Keys
      && i == |s'.calls| - 1 && s'.calls[i] == s.calls[i].(phase := Validated, fate := GivenUp(false))
  {
    assert Fits(s.calls[i]) && s.calls[i].fate.Awaited?;
  }

  /** Thread `t` waits for call `i`, which has not spent its usable token. */
  predicate CanSpend(s: State, t: Thread, i: nat, now: Time) {
    && t in s.threads && s.threads[t].Sent? && s.threads[t].call == i < |s.calls|
    && !s.calls[i].spent && !Answered(s.calls[i]) && Valid(s.rows, s.calls[i].token, now)
  }

  /** Another thread sends the same token, and it validates too. */
  lemma SendsAgain(s: State, u: Thread, now: Time)
    requires s.lock.None? && u !in s.threads && Valid(s.rows, s.client.refresh, now)
    ensures var later := s.client.expiresAt;
      var s' := ServerStep(ClientStep(ClientStep(ClientStep(s, u, Start), u, Lock), u, Check(later)), |s.calls|, Validate(true, now, false));
      s'.rows == s.rows && s'.calls == s.calls + [RefreshCall(s.client.refresh, later, Validated, false, Awaited)]
  {
  }

  lemma BothSpend(s: State, i: nat)
    requires i + 1 < |s.calls| && s.calls[i].phase.Validated? && s.calls[i + 1].phase.Validated?
    ensures var s' := ServerStep(ServerStep(s, i, RevokeRow(false)), i + 1, RevokeRow(false));
      && |s'.calls| == |s.calls| && s'.calls[i].spent && s'.calls[i + 1].spent
      && s'.calls[i].token == s.calls[i].token && s'.calls[i + 1].token == s.calls[i + 1].token
  {
  }

  predicate SpentTwice(s: State, i: nat) {
    i + 1 < |s.calls| && s.calls[i].spent && s.calls[i + 1].spent && s.calls[i].token == s.calls[i + 1].token
  }

  lemma {:induction false} RunConcat(s: State, a: seq<Step>, b: seq<Step>)
    ensures RunFrom(s, a + b) == RunFrom(RunFrom(s, a), b)
    decreases |b|
  {
    if b == [] {
      assert a + b == a;
    } else {
      assert (a + b)[..|a + b| - 1] == a + b[..|b| - 1];
      RunConcat(s, a, b[..|b| - 1]);
    }
  }

  lemma RunTwo(s: State, l: Step, m: Step)
    ensures RunFrom(s, [l, m]) == Next(Next(s, l), m)
  {
    assert [l][..0] == [];
    assert RunFrom(s, [l]) == Next(s, l);
    assert [l, m][..|[l, m]| - 1] == [l];
  }

  lemma {:induction false} RunFour(s: State, k: Step, l: Step, m: Step, n: Step)
    ensures RunFrom(s, [k, l, m, n]) == Next(Next(Next(Next(s, k), l), m), n)
  {
    RunTwo(s, k, l);
    RunTwo(RunFrom(s, [k, l]), m, n);
    RunConcat(s, [k, l], [m, n]);
    assert [k, l] + [m, n] == [k, l, m, n];
  }

  /** The condition is exact: from every state in which a thread waits for a call that has
      not spent its token, giving up can lead to that token being spent twice, provided the
      token is still usable at the server's time. */
  lemma {:induction false} GivingUpEarlyCanSpendTwice(expiresAt: Time, refreshExpiry: Time, steps: seq<Step>, t: Thread, u: Thread, now: Time)
    requires var s := Run(expiresAt, refreshExpiry, steps);
      && t in s.threads && u !in s.threads && IsWaiting(s, s.threads[t])
      && (var c := s.calls[s.threads[t].call]; !c.spent && !Answered(c) && Valid(s.rows, c.token, now))
    ensures var s := Run(expiresAt, refreshExpiry, steps);
      exists more :: SpentTwice(RunFrom(s, more), s.threads[t].call)
  {
    var s := Run(expiresAt, refreshExpiry, steps);
    EveryRunHolds(expiresAt, refreshExpiry, steps);
    hide Run, Exclusive, OneAwaited, CallsFit, RowsAgree, SingleUse, FreshTokens, Tracks, Advances;
    SpendsTwice(s, t, s.threads[t].call, u, now);
  }

  lemma SpendsTwice(s: State, t: Thread, i: nat, u: Thread, now: Time)
    requires Exclusive(s) && OneAwaited(s) && CallsFit(s)
    requires CanSpend(s, t, i, now) && u !in s.threads
    ensures exists more :: SpentTwice(RunFrom(s, more), i)
  {
    hide *;
    var first := [OfServer(i, Validate(true, now, false)), OfClient(t, GiveUp)];
    var s1 := RunFrom(s, first);
    RunGivesUp(s, t, i, now, first);
    assert u !in s1.threads;
    SpendsTwiceAfter(s1, i, u, now);
    var rest :| SpentTwice(RunFrom(s1, rest), i);
    RunConcat(s, first, rest);
  }

  /** The client has given up on call `i`, which is about to spend the token it still holds. */
  predicate IsLeftBehind(s: State, i: nat) {
    i < |s.calls| && s.calls[i] == RefreshCall(s.client.refresh, s.calls[i].sentAt, Validated, false, GivenUp(false))
  }

  lemma RunGivesUp(s: State, t: Thread, i: nat, now: Time, first: seq<Step>)
    requires Exclusive(s) && OneAwaited(s) && CallsFit(s)
    requires CanSpend(s, t, i, now)
    requires first == [OfServer(i, Validate(true, now, false)), OfClient(t, GiveUp)]
    ensures var s' := RunFrom(s, first);
      && s'.lock.None? && s'.threads.Keys == s.threads.Keys && Valid(s'.rows, s'.client.refresh, now)
      && i == |s'.calls| - 1 && IsLeftBehind(s', i)
  {
    hide RunFrom, Valid, ClientStep, ServerStep, CallsFit;
    RunTwo(s, first[0], first[1]);
    GivesUp(s, t, i, now);
    assert s.calls[i].token == s.client.refresh by {
      AwaitedToken(s, t, i);
    }
  }

  lemma AwaitedToken(s: State, t: Thread, i: nat)
    requires Exclusive(s) && OneAwaited(s)
    requires t in s.threads && s.threads[t].Sent? && s.threads[t].call == i < |s.calls|
    ensures s.calls[i].token == s.client.refresh
  {
    assert s.calls[i].fate.Awaited?;
  }

  lemma SpendsTwiceAfter(s: State, i: nat, u: Thread, now: Time)
    requires s.lock.None? && u !in s.threads && Valid(s.rows, s.client.refresh, now)
    requires i == |s.calls| - 1 && IsLeftBehind(s, i)
    ensures exists more :: SpentTwice(RunFrom(s, more), i)
  {
    hide ClientStep, ServerStep, RunFrom, Valid;
    var again := [OfClient(u, Start), OfClient(u, Lock), OfClient(u, Check(s.client.expiresAt)), OfServer(i + 1, Validate(true, now, false))];
    var revoke := [OfServer(i, RevokeRow(false)), OfServer(i + 1, RevokeRow(false))];
    RunFour(s, again[0], again[1], again[2], again[3]);
    SendsAgain(s, u, now);
    var s1 := RunFrom(s, again);
    RunTwo(s1, revoke[0], revoke[1]);
    BothSpend(s1, i);
    RunConcat(s, again, revoke);
    assert SpentTwice(RunFrom(s, again + revoke), i);
  }
}
