/** Sorting by an integer key, and what does not depend on how equal keys are ordered. */
module Sorting {

  predicate Sorted<T>(key: T -> int, s: seq<T>) {
    forall i, j :: 0 <= i < j < |s| ==> key(s[i]) <= key(s[j])
  }

  predicate Strict<T>(key: T -> int, s: seq<T>) {
    forall i, j :: 0 <= i < j < |s| ==> key(s[i]) < key(s[j])
  }

  predicate DistinctKeys<T>(key: T -> int, s: seq<T>) {
    forall i, j :: 0 <= i < j < |s| ==> key(s[i]) != key(s[j])
  }

  function Insert<T>(key: T -> int, s: seq<T>, x: T): seq<T> {
    if s == [] || key(s[|s| - 1]) <= key(x) then s + [x]
    else Insert(key, s[..|s| - 1], x) + [s[|s| - 1]]
  }

  function Sort<T>(key: T -> int, s: seq<T>): seq<T> {
    if s == [] then [] else Insert(key, Sort(key, s[..|s| - 1]), s[|s| - 1])
  }

  predicate NoneAbove<T>(key: T -> int, s: seq<T>, bound: int) {
    forall i :: 0 <= i < |s| ==> key(s[i]) <= bound
  }

  lemma {:induction false} InsertKeepsMembers<T>(key: T -> int, s: seq<T>, x: T)
    ensures multiset(Insert(key, s, x)) == multiset(s) + multiset{x}
    decreases |s|
  {
    if s == [] || key(s[|s| - 1]) <= key(x) {
    } else {
      assert s == s[..|s| - 1] + [s[|s| - 1]];
      InsertKeepsMembers(key, s[..|s| - 1], x);
    }
  }

  lemma {:induction false} InsertKeepsSorted<T>(key: T -> int, s: seq<T>, x: T, bound: int)
    requires Sorted(key, s)
    ensures Sorted(key, Insert(key, s, x))
    ensures NoneAbove(key, s, bound) && key(x) <= bound ==> NoneAbove(key, Insert(key, s, x), bound)
    decreases |s|
  {
    if s == [] || key(s[|s| - 1]) <= key(x) {
    } else {
      var front, last := s[..|s| - 1], s[|s| - 1];
      assert NoneAbove(key, front, key(last));
      InsertKeepsSorted(key, front, x, key(last));
    }
  }

  lemma {:induction false} SortSorts<T>(key: T -> int, s: seq<T>)
    ensures Sorted(key, Sort(key, s))
    ensures multiset(Sort(key, s)) == multiset(s)
    decreases |s|
  {
    if s == [] {
    } else {
      assert s == s[..|s| - 1] + [s[|s| - 1]];
      SortSorts(key, s[..|s| - 1]);
      InsertKeepsMembers(key, Sort(key, s[..|s| - 1]), s[|s| - 1]);
      InsertKeepsSorted(key, Sort(key, s[..|s| - 1]), s[|s| - 1], 0);
    }
  }

  // ----- rearrangements

  lemma SameLength<T>(p: seq<T>, q: seq<T>)
    requires multiset(p) == multiset(q)
    ensures |p| == |q|
  {
    assert |multiset(p)| == |p| && |multiset(q)| == |q|;
  }

  function Keys<T>(key: T -> int, s: seq<T>): (ks: seq<int>)
    ensures |ks| == |s|
    ensures forall i :: 0 <= i < |s| ==> ks[i] == key(s[i])
  {
    seq(|s|, i requires 0 <= i < |s| => key(s[i]))
  }

  lemma KeysSplit<T>(key: T -> int, s: seq<T>, i: nat)
    requires i < |s|
    ensures multiset(s) == multiset(s[..i] + s[i + 1..]) + multiset{s[i]}
    ensures multiset(Keys(key, s)) == multiset(Keys(key, s[..i] + s[i + 1..])) + multiset{key(s[i])}
  {
    var rest := s[..i] + s[i + 1..];
    assert s == s[..i] + [s[i]] + s[i + 1..];
    assert Keys(key, rest) == Keys(key, s[..i]) + Keys(key, s[i + 1..]);
    assert Keys(key, s) == Keys(key, s[..i]) + [key(s[i])] + Keys(key, s[i + 1..]);
  }

  lemma {:induction false} SameKeys<T>(key: T -> int, p: seq<T>, q: seq<T>)
    requires multiset(p) == multiset(q)
    ensures multiset(Keys(key, p)) == multiset(Keys(key, q))
    decreases |p|
  {
    SameLength(p, q);
    if p == [] {
    } else {
      var n := |p| - 1;
      assert p[n] in multiset(q);
      var j :| 0 <= j < |q| && q[j] == p[n];
      var p', q' := p[..n] + p[n + 1..], q[..j] + q[j + 1..];
      KeysSplit(key, p, n);
      KeysSplit(key, q, j);
      assert multiset(p') == multiset(p) - multiset{p[n]} == multiset(q');
      SameKeys(key, p', q');
    }
  }

  predicate Ascending(s: seq<int>) {
    forall i, j :: 0 <= i < j < |s| ==> s[i] <= s[j]
  }

  lemma WithoutLast(s: seq<int>)
    requires s != []
    ensures Ascending(s) ==> Ascending(s[..|s| - 1])
    ensures multiset(s[..|s| - 1]) == multiset(s) - multiset{s[|s| - 1]}
    ensures s == s[..|s| - 1] + [s[|s| - 1]]
  {
    assert s == s[..|s| - 1] + [s[|s| - 1]];
  }

  lemma SameLast(p: seq<int>, q: seq<int>)
    requires Ascending(p) && Ascending(q) && multiset(p) == multiset(q) && |p| == |q| > 0
    ensures p[|p| - 1] == q[|q| - 1]
  {
    var n := |p| - 1;
    assert p[n] in multiset(q) && q[n] in multiset(p);
    var i :| 0 <= i <= n && p[i] == q[n];
    var j :| 0 <= j <= n && q[j] == p[n];
  }

  lemma {:induction false} AscendingIsUnique(p: seq<int>, q: seq<int>)
    requires Ascending(p) && Ascending(q) && multiset(p) == multiset(q)
    ensures p == q
    decreases |p|
  {
    hide Ascending;
    SameLength(p, q);
    if p == [] {
    } else {
      SameLast(p, q);
      WithoutLast(p);
      WithoutLast(q);
      AscendingIsUnique(p[..|p| - 1], q[..|q| - 1]);
    }
  }

  /** However ties are broken, the keys come out in the same order. */
  lemma SortedKeysAgree<T>(key: T -> int, p: seq<T>, q: seq<T>)
    requires Sorted(key, p) && Sorted(key, q) && multiset(p) == multiset(q)
    ensures |p| == |q| && Keys(key, p) == Keys(key, q)
  {
    SameLength(p, q);
    SameKeys(key, p, q);
    AscendingIsUnique(Keys(key, p), Keys(key, q));
  }

  /** Without ties there is only one sorted order. */
  lemma StrictIsUnique<T>(key: T -> int, p: seq<T>, q: seq<T>)
    requires Strict(key, p) && Sorted(key, q) && multiset(p) == multiset(q)
    ensures p == q
  {
    SortedKeysAgree(key, p, q);
    forall i | 0 <= i < |p|
      ensures p[i] == q[i]
    {
      assert Keys(key, p)[i] == Keys(key, q)[i];
      assert q[i] in multiset(p);
      var j :| 0 <= j < |p| && p[j] == q[i];
      assert key(p[j]) == key(p[i]);
    }
  }

  /** Sorting what has distinct keys leaves no ties. */
  lemma SortOfDistinct<T>(key: T -> int, s: seq<T>)
    requires DistinctKeys(key, s)
    ensures Strict(key, Sort(key, s))
    ensures multiset(Sort(key, s)) == multiset(s)
  {
    SortSorts(key, s);
    DistinctSurvives(key, s, Sort(key, s));
  }

  lemma DistinctSurvives<T>(key: T -> int, s: seq<T>, r: seq<T>)
    requires DistinctKeys(key, s) && multiset(r) == multiset(s)
    ensures DistinctKeys(key, r)
  {
    SameKeys(key, s, r);
    forall i, j | 0 <= i < j < |r|
      ensures key(r[i]) != key(r[j])
    {
      if key(r[i]) == key(r[j]) {
        OccursTwice(Keys(key, r), i, j);
        OccurrencesDiffer(Keys(key, s), key(r[i]));
      }
    }
  }

  lemma OccursTwice(s: seq<int>, i: nat, j: nat)
    requires i < j < |s| && s[i] == s[j]
    ensures multiset(s)[s[i]] >= 2
  {
    assert s == s[..j] + [s[j]] + s[j + 1..];
    assert s[i] in multiset(s[..j]) by {
      assert s[..j][i] == s[i];
    }
  }

  lemma {:induction false} OccurrencesDiffer(s: seq<int>, x: int)
    requires multiset(s)[x] >= 2
    ensures exists a, b :: 0 <= a < b < |s| && s[a] == s[b]
    decreases |s|
  {
    var front, last := s[..|s| - 1], s[|s| - 1];
    assert s == front + [last];
    if last == x {
      assert x in multiset(front);
      var a :| 0 <= a < |front| && front[a] == x;
      assert s[a] == s[|s| - 1];
    } else {
      OccurrencesDiffer(front, x);
      var a, b :| 0 <= a < b < |front| && front[a] == front[b];
      assert s[a] == s[b];
    }
  }
}
