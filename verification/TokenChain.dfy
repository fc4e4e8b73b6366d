/** What holds of a client's chain of refresh tokens in every run: when a token is spent only
    once, and when the token the client holds is the one that is left. */
module TokenChain {
  import opened Ids
  import opened RefreshChain
  import opened TokenService
  import opened Wrappers

  /** The lock lets two refresh calls overlap only if the client gave up on the earlier one,
      and, whatever overlaps, a token is spent twice only if the client gave up on the
      earlier call before that call had spent it. */
  lemma {:induction false} TokensAreSpentOnce(expiresAt: Time, refreshExpiry: Time, steps: seq<Step>, i: nat, j: nat)
    requires i < j < |Run(expiresAt, refreshExpiry, steps).calls|
    ensures var calls := Run(expiresAt, refreshExpiry, steps).calls;
      && (!Answered(calls[i]) ==> calls[i].fate.GivenUp?)
      && (calls[i].spent && calls[j].spent && calls[i].token == calls[j].token ==> calls[i].fate == GivenUp(false))
  {
    EveryRunHolds(expiresAt, refreshExpiry, steps);
    hide Run, RowsAgree, FreshTokens, Tracks;
  }

  // ----- when the chain is intact

  predicate Unrevoked(s: State, j: Jti) {
    j in s.rows && !s.rows[j].revoked
  }

  /** The client's token is the one unrevoked token of its chain. */
  ghost predicate Intact(s: State) {
    forall j :: InChain(s, j) ==> (Unrevoked(s, j) <==> j == s.client.refresh)
  }

  /** No call has spent the token that the client holds, and no call made a token that has
      not arrived. */
  predicate NothingLost(s: State) {
    && (forall i :: 0 <= i < |s.calls| && s.calls[i].spent ==> s.calls[i].token != s.client.refresh)
    && (forall i :: 0 <= i < |s.calls| && s.calls[i].phase.Succeeded? ==> s.calls[i].fate.Received?)
  }

  lemma KnownIsInChain(s: State, j: Jti)
    ensures Known(s, j) ==> InChain(s, j)
  {
  }

  lemma InChainIsRow(s: State, j: Jti)
    requires RowsAgree(s) && InChain(s, j)
    ensures Unrevoked(s, j) <==> !IsSpent(s, j)
  {
    hide IsSpent;
  }

  /** A token that was made and has not arrived is not known, hence not spent. */
  lemma LostIsUnspent(s: State, i: nat)
    requires Exclusive(s) && FreshTokens(s) && Tracks(s)
    requires i < |s.calls| && s.calls[i].phase.Succeeded? && !s.calls[i].fate.Received?
    ensures var j := s.calls[i].phase.pair.refresh; InChain(s, j) && !Known(s, j) && !IsSpent(s, j)
  {
    var j := s.calls[i].phase.pair.refresh;
    assert MadeBy(s.calls[i], j);
    assert forall k :: 0 <= k < |s.calls| && MadeBy(s.calls[k], j) ==> k == i;
  }

  lemma {:induction false} IntactMeansNothingLost(s: State)
    requires Holds(s) && Intact(s)
    ensures NothingLost(s)
  {
    hide SingleUse, OneAwaited, CallsFit;
    KnownIsInChain(s, s.client.refresh);
    InChainIsRow(s, s.client.refresh);
    forall i | 0 <= i < |s.calls| && s.calls[i].phase.Succeeded?
      ensures s.calls[i].fate.Received?
    {
      if !s.calls[i].fate.Received? {
        LostIsUnspent(s, i);
        InChainIsRow(s, s.calls[i].phase.pair.refresh);
      }
    }
  }

  lemma NothingLostMeansIntact(s: State)
    requires Holds(s) && s.lock.None? && NothingLost(s)
    ensures Intact(s)
  {
    hide SingleUse, OneAwaited, CallsFit;
    forall j | InChain(s, j)
      ensures Unrevoked(s, j) <==> j == s.client.refresh
    {
      InChainIsRow(s, j);
      assert Known(s, j);
    }
  }

  /** Whenever the refresh lock is free, the client's token is the one unrevoked token of its
      chain if and only if no call has spent that token and every token the server made has
      arrived. */
  lemma {:induction false} ChainIsIntactExactlyWhenNothingWasLost(expiresAt: Time, refreshExpiry: Time, steps: seq<Step>)
    requires Run(expiresAt, refreshExpiry, steps).lock.None?
    ensures var s := Run(expiresAt, refreshExpiry, steps); Intact(s) <==> NothingLost(s)
  {
    var s := Run(expiresAt, refreshExpiry, steps);
    EveryRunHolds(expiresAt, refreshExpiry, steps);
    hide Holds, Run, Intact, NothingLost;
    if Intact(s) {
      IntactMeansNothingLost(s);
    }
    if NothingLost(s) {
      NothingLostMeansIntact(s);
    }
  }

  /** So if the client gives up on no call and every call that spent its token succeeds, the
      chain is intact whenever the lock is free, and every token is spent at most once. */
  lemma {:induction false} CompleteRefreshesKeepTheChain(expiresAt: Time, refreshExpiry: Time, steps: seq<Step>)
    requires var s := Run(expiresAt, refreshExpiry, steps);
      && s.lock.None?
      && forall i :: 0 <= i < |s.calls| ==> !s.calls[i].fate.GivenUp? && (s.calls[i].phase.Failed? ==> !s.calls[i].spent)
    ensures var s := Run(expiresAt, refreshExpiry, steps);
      && Intact(s)
      && forall i, j :: 0 <= i < j < |s.calls| && s.calls[i].spent && s.calls[j].spent ==> s.calls[i].token != s.calls[j].token
  {
    var s := Run(expiresAt, refreshExpiry, steps);
    EveryRunHolds(expiresAt, refreshExpiry, steps);
    hide Run, RowsAgree, FreshTokens, Tracks, Intact;
    assert NothingLost(s);
    ChainIsIntactExactlyWhenNothingWasLost(expiresAt, refreshExpiry, steps);
  }
}
