/** Round-robin selection over a wrapping 64-bit counter, and when it is fair. */
module RoundRobin {
  import opened Seqs
  import opened Wrappers

  const WRAP: nat := 0x1_0000_0000_0000_0000

  type UInt64 = x: int | 0 <= x < WRAP

  datatype RouteError = NoAvailableWorkers | NoMatchingWorkers

  /** The worker position that the selection made at counter value `c` picks. */
  function Index(c: int, n: int): (i: int)
    requires n > 0
    ensures 0 <= i < n
  {
    (c % WRAP) % n
  }

  function Wrapped(x: int): UInt64 {
    x % WRAP
  }

  lemma NextCounter(x: nat, n: nat)
    requires n > 0
    ensures Wrapped(Wrapped(x) + 1) == Wrapped(x + 1)
    ensures Index(Wrapped(x), n) == Index(x, n)
  {
    var q, r := x / WRAP, x % WRAP;
    assert x == q * WRAP + r;
  }

  /** The counter after an increment, and what the decrement after it gives back. */
  lemma Incremented(c: UInt64)
    ensures var c' := (c + 1) % WRAP;
      && c' == (if c == 0xffff_ffff_ffff_ffff then 0 else c + 1)
      && (c' - 1) % WRAP == c
  {
  }

  lemma IndexOf(c: UInt64, n: nat)
    requires n > 0
    ensures Index(c, n) == c % n
  {
  }

  class RoundRobinRouter {
    var counter: UInt64

    constructor ()
      ensures counter == 0
    {
      counter := 0;
    }

    method SelectWorker<W>(available: seq<W>) returns (r: Result<W, RouteError>)
      modifies this
      ensures available == [] ==> r == Err(NoAvailableWorkers) && counter == old(counter)
      ensures available != [] ==> r == Ok(available[Index(old(counter), |available|)])
      ensures available != [] ==> counter == Wrapped(old(counter) + 1)
      ensures available != [] ==> r == Ok(available[old(counter) % |available|])
      ensures available != [] ==> counter == if old(counter) == 0xffff_ffff_ffff_ffff then 0 else old(counter) + 1
    {
      if |available| == 0 {
        return Err(NoAvailableWorkers);
      }
      Incremented(counter);
      IndexOf(counter, |available|);
      hide Index;
      counter := (counter + 1) % WRAP;
      var idx := ((counter - 1) % WRAP) % |available|;
      r := Ok(available[idx]);
    }

    /** `m` selections in a row over the same workers. */
    method SelectMany<W(==)>(available: seq<W>, m: nat) returns (picks: seq<W>)
      requires available != []
      modifies this
      ensures |picks| == m
      ensures forall i :: 0 <= i < m ==> picks[i] == available[Index(old(counter) + i, |available|)]
      ensures FairTo(available, picks, old(counter))
    {
      picks := [];
      ghost var start, n := counter, |available|;
      hide Index;
      for i := 0 to m
        invariant |picks| == i && counter == Wrapped(start + i)
        invariant forall k :: 0 <= k < i ==> picks[k] == available[Index(start + k, n)]
      {
        NextCounter(start + i, n);
        var r := SelectWorker(available);
        picks := picks + [r.value];
      }
      PicksAreFair(available, picks, start);
    }
  }

  // ----- how often each worker is picked

  /** Among the `m` selections from counter value `c` on, those that pick position `w`. */
  function Picks(c: nat, m: nat, n: nat, w: nat): nat
    requires n > 0
  {
    if m == 0 then 0 else Picks(c, m - 1, n, w) + if Index(c + m - 1, n) == w then 1 else 0
  }

  function Ceil(m: nat, n: nat): nat
    requires n > 0
  {
    m / n + if m % n == 0 then 0 else 1
  }

  predicate FairWindow(c: nat, m: nat, n: nat)
    requires n > 0
  {
    forall w :: 0 <= w < n ==> m / n <= Picks(c, m, n, w) <= Ceil(m, n)
  }

  lemma Monotone(a: int, b: int, n: nat)
    ensures a <= b ==> a * n <= b * n
  {
  }

  lemma {:induction false} Floor(x: int, n: int, q: int)
    requires n > 0 && q * n <= x < q * n + n
    ensures x / n == q && x % n == x - q * n
  {
    var q', r := x / n, x % n;
    assert x == q' * n + r;
    Monotone(q' + 1, q, n);
    Monotone(q + 1, q', n);
  }

  lemma Unfloor(x: int, n: int)
    requires n > 0
    ensures (x / n) * n <= x < (x / n) * n + n && x % n == x - (x / n) * n
  {
  }

  /** Counting the numbers below `x` that leave remainder `w`. */
  function Below(x: int, n: int, w: int): int
    requires n > 0
  {
    (x + n - 1 - w) / n
  }

  lemma {:induction false} BelowStep(x: nat, n: nat, w: nat)
    requires w < n
    ensures Below(x + 1, n, w) == Below(x, n, w) + if x % n == w then 1 else 0
  {
    Unfloor(x, n);
    var q, r := x / n, x % n;
    assert (q + 1) * n == q * n + n;
    Floor(x + n - 1 - w, n, if r > w then q + 1 else q);
    Floor(x + n - w, n, if r >= w then q + 1 else q);
  }

  lemma {:induction false} PicksWithoutWrap(c: nat, m: nat, n: nat, w: nat)
    requires w < n && (c + m <= WRAP || WRAP % n == 0)
    ensures Picks(c, m, n, w) == Below(c + m, n, w) - Below(c, n, w)
    decreases m
  {
    if m == 0 {
    } else {
      PicksWithoutWrap(c, m - 1, n, w);
      BelowStep(c + m - 1, n, w);
      IndexWithoutWrap(c + m - 1, n);
      hide Below, Index;
    }
  }

  lemma {:induction false} IndexWithoutWrap(x: nat, n: nat)
    requires n > 0 && (x < WRAP || WRAP % n == 0)
    ensures Index(x, n) == x % n
  {
    if x < WRAP {
      Floor(x, WRAP, 0);
    } else {
      ModDivides(x, n);
    }
  }

  lemma {:induction false} ModDivides(x: nat, n: nat)
    requires n > 0 && WRAP % n == 0
    ensures (x % WRAP) % n == x % n
  {
    var k, q := WRAP / n, x / WRAP;
    Unfloor(WRAP, n);
    Unfloor(x, WRAP);
    var r := x % WRAP;
    Unfloor(r, n);
    Unfloor(x, n);
    assert x == q * (k * n) + r == (q * k) * n + r;
    assert x == (q * k + r / n) * n + r % n;
    Floor(x, n, q * k + r / n);
  }

  lemma {:induction false} Spread(y: nat, m: nat, n: nat)
    requires n > 0
    ensures m / n <= (y + m) / n - y / n <= Ceil(m, n)
  {
    Unfloor(y, n);
    Unfloor(m, n);
    var a, b, p, q := y / n, y % n, m / n, m % n;
    assert (a + p) * n == a * n + p * n && (a + p + 1) * n == a * n + p * n + n;
    Floor(y + m, n, if b + q >= n then a + p + 1 else a + p);
  }

  /** In any window of selections without a counter wrap, and in any window at all when the
      number of workers divides 2^64, each worker is picked floor(m/n) or ceil(m/n) times. */
  lemma {:induction false} FairWithoutWrap(c: nat, m: nat, n: nat)
    requires n > 0 && (c + m <= WRAP || WRAP % n == 0)
    ensures FairWindow(c, m, n)
  {
    forall w | 0 <= w < n
      ensures m / n <= Picks(c, m, n, w) <= Ceil(m, n)
    {
      PicksWithoutWrap(c, m, n, w);
      Spread(c + n - 1 - w, m, n);
      assert c + n - 1 - w + m == c + m + n - 1 - w;
    }
  }

  lemma {:induction false} PicksAtLeast(c: nat, m: nat, n: nat, w: nat, i: nat, j: nat)
    requires n > 0 && i < j < m && Index(c + i, n) == w && Index(c + j, n) == w
    ensures Picks(c, m, n, w) >= 2
    decreases m
  {
    if j == m - 1 {
      PickedOnce(c, m - 1, n, w, i);
    } else {
      PicksAtLeast(c, m - 1, n, w, i, j);
    }
  }

  lemma {:induction false} PickedOnce(c: nat, m: nat, n: nat, w: nat, i: nat)
    requires n > 0 && i < m && Index(c + i, n) == w
    ensures Picks(c, m, n, w) >= 1
    decreases m
  {
    if i == m - 1 {
    } else {
      PickedOnce(c, m - 1, n, w, i);
    }
  }

  /** Every window, wrapping or not, is fair exactly when the number of workers divides
      2^64; otherwise the window of n selections that starts just before the wrap picks one
      worker twice. */
  lemma FairAcrossWrapExactlyForDivisors(n: nat)
    requires 0 < n <= WRAP
    ensures (forall c: nat, m: nat :: FairWindow(c, m, n)) <==> WRAP % n == 0
  {
    if WRAP % n == 0 {
      forall c: nat, m: nat
        ensures FairWindow(c, m, n)
      {
        FairWithoutWrap(c, m, n);
      }
    } else {
      UnfairAtWrap(n);
    }
  }

  lemma UnfairAtWrap(n: nat)
    requires 0 < n <= WRAP && WRAP % n != 0
    ensures !FairWindow(WRAP - 1, n, n)
  {
    var r := (WRAP - 1) % n;
    Unfloor(WRAP - 1, n);
    var q := (WRAP - 1) / n;
    if r == n - 1 {
      assert (q + 1) * n == q * n + n == WRAP;
      Floor(WRAP, n, q + 1);
    }
    Floor(WRAP + r, WRAP, 1);
    Floor(r, n, 0);
    PicksAtLeast(WRAP - 1, n, n, r, 0, r + 1);
    Floor(n, n, 1);
  }

  // ----- the workers picked

  /** Without a wrap, or with a divisor of 2^64 workers, each of different workers is picked
      floor(m/n) or ceil(m/n) times. */
  predicate FairTo<W(==)>(available: seq<W>, picks: seq<W>, c: nat)
    requires available != []
  {
    var m, n := |picks|, |available|;
    Distinct(available) && (c + m <= WRAP || WRAP % n == 0) ==>
      forall k :: 0 <= k < n ==> m / n <= multiset(picks)[available[k]] <= Ceil(m, n)
  }

  lemma {:induction false} PicksCountWorkers<W>(available: seq<W>, picks: seq<W>, c: nat, k: nat)
    requires Distinct(available) && k < |available|
    requires forall i :: 0 <= i < |picks| ==> picks[i] == available[Index(c + i, |available|)]
    ensures multiset(picks)[available[k]] == Picks(c, |picks|, |available|, k)
    decreases |picks|
  {
    hide Index;
    if picks == [] {
    } else {
      var m := |picks| - 1;
      assert picks == picks[..m] + [picks[m]];
      PicksCountWorkers(available, picks[..m], c, k);
    }
  }

  lemma {:induction false} PicksAreFair<W>(available: seq<W>, picks: seq<W>, c: nat)
    requires available != []
    requires forall i :: 0 <= i < |picks| ==> picks[i] == available[Index(c + i, |available|)]
    ensures FairTo(available, picks, c)
  {
    hide Index;
    var m, n := |picks|, |available|;
    if Distinct(available) && (c + m <= WRAP || WRAP % n == 0) {
      FairWithoutWrap(c, m, n);
      forall k | 0 <= k < n
        ensures m / n <= multiset(picks)[available[k]] <= Ceil(m, n)
      {
        PicksCountWorkers(available, picks, c, k);
      }
    }
  }
}
