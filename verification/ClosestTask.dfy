/** "Did you mean ...?": the two-row edit distance and the nearest task name. */
module ClosestTask {
  import opened Seqs
  import opened Wrappers
  import opened EditScripts

  /** `row` holds, up to column `upTo`, the distances from the first `i` bytes of `a`. */
  ghost predicate RowFilled(row: seq<int>, a: Text, i: nat, b: Text, upTo: nat)
    requires i <= |a| && upTo <= |b|
  {
    |row| == |b| + 1 && forall k :: 0 <= k <= upTo ==> row[k] == Distance(a[..i], b[..k])
  }

  lemma FirstRow(row: seq<int>, a: Text, b: Text)
    requires |row| == |b| + 1 && forall k :: 0 <= k <= |b| ==> row[k] == k
    ensures RowFilled(row, a, 0, b, |b|)
  {
  }

  lemma FirstCell(row: seq<int>, a: Text, i: nat, b: Text)
    requires i <= |a| && |row| == |b| + 1 && row[0] == i
    ensures RowFilled(row, a, i, b, 0)
  {
  }

  /** One cell of the table from its three neighbours. */
  lemma NextCell(prev: seq<int>, row: seq<int>, row': seq<int>, a: Text, i: nat, b: Text, j: nat)
    requires 0 < i <= |a| && 0 < j <= |b|
    requires RowFilled(prev, a, i - 1, b, |b|) && RowFilled(row, a, i, b, j - 1)
    requires row' == row[j := Min3(prev[j] + 1, row[j - 1] + 1,
                                   prev[j - 1] + if a[i - 1] == b[j - 1] then 0 else 1)]
    ensures RowFilled(row', a, i, b, j)
  {
    assert Front(a[..i]) == a[..i - 1] && Front(b[..j]) == b[..j - 1];
    assert Distance(a[..i], b[..j]) == row'[j];
  }

  lemma {:induction false} LastCell(row: seq<int>, a: Text, b: Text)
    requires RowFilled(row, a, |a|, b, |b|)
    ensures row[|b|] == Distance(a, b)
  {
    assert a[..|a|] == a && b[..|b|] == b;
  }

  method Levenshtein(a: Text, b: Text) returns (d: int)
    ensures d == Distance(a, b)
    ensures IsCheapest(a, b, d)
  {
    DistanceIsCheapest(a, b, Distance(a, b));
    LengthBounds(a, b);
    hide Distance;
    if |a| == 0 {
      return |b|;
    }
    if |b| == 0 {
      return |a|;
    }

    var prev := new int[|b| + 1];
    var curr := new int[|b| + 1];
    for j := 0 to prev.Length
      invariant forall k :: 0 <= k < j ==> prev[k] == k
    {
      prev[j] := j;
    }
    FirstRow(prev[..], a, b);

    for i := 1 to |a| + 1
      invariant prev != curr && fresh(prev) && fresh(curr)
      invariant prev.Length == curr.Length == |b| + 1
      invariant RowFilled(prev[..], a, i - 1, b, |b|)
    {
      curr[0] := i;
      FirstCell(curr[..], a, i, b);
      for j := 1 to |b| + 1
        invariant RowFilled(prev[..], a, i - 1, b, |b|)
        invariant RowFilled(curr[..], a, i, b, j - 1)
      {
        ghost var before := curr[..];
        var cost := 1;
        if a[i - 1] == b[j - 1] {
          cost := 0;
        }
        curr[j] := Min3(prev[j] + 1, curr[j - 1] + 1, prev[j - 1] + cost);
        NextCell(prev[..], before, curr[..], a, i, b, j);
      }
      prev, curr := curr, prev;
    }
    LastCell(prev[..], a, b);
    d := prev[|b|];
  }

  const MAX_SUGGESTION_DISTANCE := 3

  /** Close enough to be suggested for `name`. */
  predicate Qualifies(name: Text, candidate: Text) {
    Distance(name, candidate) <= MAX_SUGGESTION_DISTANCE && Distance(name, candidate) <= |name|
  }

  ghost predicate NoneQualifies(name: Text, tasks: set<Text>) {
    forall t :: t in tasks ==> !Qualifies(name, t)
  }

  ghost predicate IsNearest(name: Text, tasks: set<Text>, r: Text) {
    && r in tasks && Qualifies(name, r)
    && forall t :: t in tasks ==> Distance(name, r) <= Distance(name, t)
  }

  /** What a suggestion for `name` among `tasks` may be: some qualifying task at minimal
      distance, or the empty text when no task qualifies. */
  ghost predicate IsSuggestion(name: Text, tasks: set<Text>, r: Text) {
    IsNearest(name, tasks, r) || (r == [] && NoneQualifies(name, tasks))
  }

  /** `tasks` is visited in an arbitrary order, as Go visits a map.  A missing
      configuration is `None`. */
  method FindClosestTask<C>(name: Text, cfg: Option<map<Text, C>>) returns (r: Text)
    ensures cfg.None? ==> r == []
    ensures cfg.Some? ==> IsSuggestion(name, cfg.value.Keys, r)
    ensures cfg.Some? && r != [] ==>
      && r in cfg.value && Distance(name, r) <= 3 && Distance(name, r) <= |name|
      && forall t :: t in cfg.value ==> Distance(name, r) <= Distance(name, t)
    ensures cfg.Some? && r == [] ==>
      || (forall t :: t in cfg.value ==> Distance(name, t) > 3 || Distance(name, t) > |name|)
      || ([] in cfg.value && |name| <= 3 && forall t :: t in cfg.value ==> |name| <= Distance(name, t))
  {
    if cfg.None? {
      return [];
    }
    var bestDist := |name| + 1;
    var bestMatch: Text := [];
    var rest := cfg.value.Keys;
    ghost var seen: set<Text> := {};
    while rest != {}
      invariant seen + rest == cfg.value.Keys
      invariant bestDist == |name| + 1 ==>
                  bestMatch == [] && forall t :: t in seen ==> !Qualifies(name, t)
      invariant bestDist != |name| + 1 ==>
                  && bestMatch in seen
                  && Qualifies(name, bestMatch) && bestDist == Distance(name, bestMatch)
                  && (forall t :: t in seen ==> bestDist <= Distance(name, t))
      decreases |rest|
    {
      var taskName :| taskName in rest;
      var d := Levenshtein(name, taskName);
      if d < bestDist && d <= MAX_SUGGESTION_DISTANCE {
        bestDist := d;
        bestMatch := taskName;
      }
      rest := rest - {taskName};
      seen := seen + {taskName};
    }
    LengthBounds(name, []);
    r := bestMatch;
  }

  /** Whatever order the map is visited in, the suggestion is equally far away. */
  lemma OrderDoesNotMatter(name: Text, tasks: set<Text>, r1: Text, r2: Text)
    requires IsSuggestion(name, tasks, r1) && IsSuggestion(name, tasks, r2)
    ensures Distance(name, r1) == Distance(name, r2)
  {
    if r1 in tasks && Qualifies(name, r1) {
      assert Distance(name, r1) <= Distance(name, r2);
    }
  }

  /** An answer that is not empty names a task; the empty answer means that nothing
      qualifies, unless a task with the empty name is itself a nearest one.  That last
      case is real: it arises exactly for names of at most three bytes. */
  lemma EmptyAnswerMeansNothingQualifies(name: Text, tasks: set<Text>)
    ensures forall r :: IsSuggestion(name, tasks, r) && r != [] ==> r in tasks && !NoneQualifies(name, tasks)
    ensures (forall r :: IsSuggestion(name, tasks, r) ==> (r == [] <==> NoneQualifies(name, tasks)))
            <==> !IsNearest(name, tasks, [])
    ensures IsNearest(name, tasks, []) <==>
            [] in tasks && |name| <= MAX_SUGGESTION_DISTANCE && forall t :: t in tasks ==> |name| <= Distance(name, t)
  {
    LengthBounds(name, []);
    assert IsNearest(name, tasks, []) ==> IsSuggestion(name, tasks, []);
  }

  /** With the single task named by the empty text, `a` gets the empty answer although that
      task is within reach. */
  lemma EmptyNamedTaskIsAmbiguous()
    ensures IsSuggestion([97], {[]}, []) && !NoneQualifies([97], {[]})
  {
    assert Qualifies([97], []);
  }
}
