/** Listing local runs, newest first, and cleaning up old ones. */
module Retention {
  import opened Ids
  import opened Sorting
  import opened Wrappers

  /** What a run's metadata file says: the run's id and its start. */
  datatype Run = Run(id: RunId, startedAt: int)

  /** The run directories with their metadata; `None` when there is none that can be read. */
  type Dirs = map<RunId, Option<Run>>

  /** What a failing delete has removed by then. */
  datatype DeleteFault = DeleteFault(metadataGone: bool, logGone: bool)

  /** The directories whose delete fails. */
  type Faults = map<RunId, DeleteFault>

  /** Sorting by `Age` puts the newest run first. */
  function Age(r: Run): int {
    -r.startedAt
  }

  // ----- listing

  /** The metadata found in the directories `entries`, in that order. */
  function Metadata(dirs: Dirs, entries: seq<RunId>): seq<Run> {
    if entries == [] then []
    else
      var n := |entries| - 1;
      Metadata(dirs, entries[..n]) +
      if entries[n] in dirs && dirs[entries[n]].Some? then [dirs[entries[n]].value] else []
  }

  predicate Enumerates(entries: seq<RunId>, dirs: Dirs) {
    multiset(entries) == multiset(dirs.Keys)
  }

  /** The metadata of every directory that has any, newest first. */
  ghost predicate IsListing(dirs: Dirs, runs: seq<Run>) {
    && Sorted(Age, runs)
    && exists entries :: Enumerates(entries, dirs) && multiset(runs) == multiset(Metadata(dirs, entries))
  }

  /** Every metadata file names its own directory. */
  predicate NamesItself(dirs: Dirs) {
    forall id :: id in dirs && dirs[id].Some? ==> dirs[id].value.id == id
  }

  function Listed(dirs: Dirs): set<Run> {
    set id | id in dirs && dirs[id].Some? :: dirs[id].value
  }

  /** Each of the runs that have metadata once, newest first. */
  predicate ListsEach(dirs: Dirs, runs: seq<Run>) {
    Sorted(Age, runs) && multiset(runs) == multiset(Listed(dirs))
  }

  lemma ListingMembers(dirs: Dirs, runs: seq<Run>)
    requires ListsEach(dirs, runs)
    ensures forall r :: r in runs <==> r in Listed(dirs)
    ensures forall i, j :: 0 <= i < j < |runs| ==> runs[i] != runs[j]
  {
    forall r
      ensures r in runs <==> r in Listed(dirs)
    {
      assert r in runs <==> r in multiset(runs);
    }
    forall i, j | 0 <= i < j < |runs|
      ensures runs[i] != runs[j]
    {
      assert runs == runs[..j] + [runs[j]] + runs[j + 1..];
      assert runs[..j][i] == runs[i];
      assert runs[i] in multiset(runs[..j]);
      assert multiset(runs)[runs[j]] <= 1;
    }
  }

  /** The runs of the first entries, each once. */
  ghost predicate Collected(dirs: Dirs, read: seq<RunId>, runs: seq<Run>) {
    && (forall r :: r in runs <==> r.id in read && r.id in dirs && dirs[r.id] == Some(r))
    && (forall i, j :: 0 <= i < j < |runs| ==> runs[i] != runs[j])
  }

  lemma {:induction false} MetadataCollects(dirs: Dirs, entries: seq<RunId>, n: nat)
    requires NamesItself(dirs) && Enumerates(entries, dirs) && n <= |entries|
    ensures Collected(dirs, entries[..n], Metadata(dirs, entries[..n]))
    decreases n
  {
    hide Collected, Enumerates, NamesItself;
    if n == 0 {
      NothingCollected(dirs);
      assert entries[..n] == [];
    } else {
      var front := entries[..n - 1];
      MetadataCollects(dirs, entries, n - 1);
      NotReadBefore(dirs, entries, n - 1);
      CollectOne(dirs, front, entries[n - 1], Metadata(dirs, front));
      assert entries[..n] == front + [entries[n - 1]];
      assert entries[..n][..n - 1] == front;
      assert Metadata(dirs, front) + [] == Metadata(dirs, front);
    }
  }

  lemma NothingCollected(dirs: Dirs)
    ensures Collected(dirs, [], Metadata(dirs, []))
  {
  }

  lemma CollectOne(dirs: Dirs, read: seq<RunId>, id: RunId, runs: seq<Run>)
    requires NamesItself(dirs) && Collected(dirs, read, runs) && id in dirs && id !in read
    ensures Collected(dirs, read + [id], runs + if dirs[id].Some? then [dirs[id].value] else [])
  {
  }

  lemma NotReadBefore(dirs: Dirs, entries: seq<RunId>, i: nat)
    requires Enumerates(entries, dirs) && i < |entries|
    ensures entries[i] in dirs && entries[i] !in entries[..i]
  {
    assert entries[i] in multiset(entries);
    assert entries == entries[..i] + [entries[i]] + entries[i + 1..];
    assert multiset(entries)[entries[i]] <= 1;
  }

  lemma {:induction false} AtMostOnce(runs: seq<Run>, r: Run)
    requires forall i, j :: 0 <= i < j < |runs| ==> runs[i] != runs[j]
    ensures multiset(runs)[r] == if r in runs then 1 else 0
    decreases |runs|
  {
    if runs == [] {
    } else {
      var n := |runs| - 1;
      assert runs == runs[..n] + [runs[n]];
      AtMostOnce(runs[..n], r);
    }
  }

  lemma AllCollected(dirs: Dirs, entries: seq<RunId>)
    requires NamesItself(dirs) && Enumerates(entries, dirs)
    ensures multiset(Metadata(dirs, entries)) == multiset(Listed(dirs))
  {
    var runs := Metadata(dirs, entries);
    MetadataCollects(dirs, entries, |entries|);
    assert entries[..|entries|] == entries;
    forall r
      ensures multiset(runs)[r] == multiset(Listed(dirs))[r]
    {
      assert r.id in entries <==> r.id in multiset(entries);
      assert r in runs <==> r in Listed(dirs);
      AtMostOnce(runs, r);
    }
  }

  /** If every metadata file names its own directory, a listing has each run once. */
  lemma ListingListsEach(dirs: Dirs, runs: seq<Run>)
    requires NamesItself(dirs) && IsListing(dirs, runs)
    ensures ListsEach(dirs, runs)
  {
    var entries :| Enumerates(entries, dirs) && multiset(runs) == multiset(Metadata(dirs, entries));
    AllCollected(dirs, entries);
  }

  // ----- deleting

  function DeleteOne(dirs: Dirs, id: RunId, faults: Faults): Dirs {
    if id !in faults then dirs - {id}
    else if faults[id].metadataGone && id in dirs then dirs[id := None]
    else dirs
  }

  function DeleteEach(dirs: Dirs, runs: seq<Run>, faults: Faults): Dirs {
    if runs == [] then dirs
    else DeleteOne(DeleteEach(dirs, runs[..|runs| - 1], faults), runs[|runs| - 1].id, faults)
  }

  function Deleted(runs: seq<Run>, faults: Faults): nat {
    if runs == [] then 0
    else Deleted(runs[..|runs| - 1], faults) + if runs[|runs| - 1].id in faults then 0 else 1
  }

  /** The runs started before the cutoff. */
  function Older(runs: seq<Run>, cutoff: int): seq<Run> {
    if runs == [] then []
    else
      var n := |runs| - 1;
      Older(runs[..n], cutoff) + if runs[n].startedAt < cutoff then [runs[n]] else []
  }

  /** The runs past the first `keepCount`. */
  function Excess(runs: seq<Run>, keepCount: nat): seq<Run> {
    if |runs| <= keepCount then [] else runs[keepCount..]
  }

  lemma {:induction false} DeletedAre(runs: seq<Run>, faults: Faults)
    ensures Deleted(runs, faults) == |set i | 0 <= i < |runs| && runs[i].id !in faults|
    decreases |runs|
  {
    if runs == [] {
    } else {
      var n := |runs| - 1;
      DeletedAre(runs[..n], faults);
      var before := set i | 0 <= i < |runs[..n]| && runs[..n][i].id !in faults;
      assert (set i | 0 <= i < |runs| && runs[i].id !in faults) == before + if runs[n].id in faults then {} else {n};
    }
  }

  predicate Names(runs: seq<Run>, id: RunId) {
    exists i :: 0 <= i < |runs| && runs[i].id == id
  }

  lemma NamesSnoc(runs: seq<Run>, id: RunId)
    requires runs != []
    ensures Names(runs, id) <==> Names(runs[..|runs| - 1], id) || runs[|runs| - 1].id == id
  {
    var front := runs[..|runs| - 1];
    if i :| 0 <= i < |front| && front[i].id == id {
      assert runs[i] == front[i];
    }
  }

  /** What any deletes, failing or not, leave of a directory, and how many count: a directory
      goes if it was to be deleted and its delete works, it stays without metadata if its
      delete fails after the metadata is gone, and otherwise it stays as it was. */
  lemma {:induction false} DeletesLeave(dirs: Dirs, runs: seq<Run>, faults: Faults, id: RunId)
    ensures var dirs' := DeleteEach(dirs, runs, faults);
      && (id in dirs' <==> id in dirs && (id in faults || !Names(runs, id)))
      && (id in dirs' ==> dirs'[id] == if Names(runs, id) && faults[id].metadataGone then None else dirs[id])
    ensures Deleted(runs, faults) == |set i | 0 <= i < |runs| && runs[i].id !in faults|
    decreases |runs|
  {
    DeletedAre(runs, faults);
    if runs == [] {
    } else {
      DeletesLeave(dirs, runs[..|runs| - 1], faults, id);
      NamesSnoc(runs, id);
      hide Names;
    }
  }

  lemma StepEach(dirs: Dirs, runs: seq<Run>, i: nat, faults: Faults)
    requires i < |runs|
    ensures DeleteEach(dirs, runs[..i + 1], faults) == DeleteOne(DeleteEach(dirs, runs[..i], faults), runs[i].id, faults)
    ensures Deleted(runs[..i + 1], faults) == Deleted(runs[..i], faults) + if runs[i].id in faults then 0 else 1
  {
    assert runs[..i + 1][..i] == runs[..i];
  }

  lemma StepOlder(dirs: Dirs, runs: seq<Run>, i: nat, cutoff: int, faults: Faults)
    requires i < |runs|
    ensures var before, after := Older(runs[..i], cutoff), Older(runs[..i + 1], cutoff);
      if runs[i].startedAt < cutoff then
        && DeleteEach(dirs, after, faults) == DeleteOne(DeleteEach(dirs, before, faults), runs[i].id, faults)
        && Deleted(after, faults) == Deleted(before, faults) + if runs[i].id in faults then 0 else 1
      else after == before
  {
    assert runs[..i + 1][..i] == runs[..i];
    var before, after := Older(runs[..i], cutoff), Older(runs[..i + 1], cutoff);
    if runs[i].startedAt < cutoff {
      assert after[..|after| - 1] == before;
    }
  }

  // ----- what cleaning leaves

  function Min(a: nat, b: nat): nat {
    if a <= b then a else b
  }

  /** How many of the newest-first runs are not older than the cutoff. */
  function Young(runs: seq<Run>, cutoff: int): (k: nat)
    ensures k <= |runs|
  {
    if runs == [] || runs[0].startedAt < cutoff then 0 else 1 + Young(runs[1..], cutoff)
  }

  lemma {:induction false} YoungSplits(runs: seq<Run>, cutoff: int)
    requires Sorted(Age, runs)
    ensures forall i :: 0 <= i < |runs| ==> (runs[i].startedAt < cutoff <==> i >= Young(runs, cutoff))
    decreases |runs|
  {
    if runs != [] && runs[0].startedAt >= cutoff {
      YoungSplits(runs[1..], cutoff);
      forall i | 0 < i < |runs|
        ensures runs[i].startedAt < cutoff <==> i >= Young(runs, cutoff)
      {
        assert runs[i] == runs[1..][i - 1];
      }
    } else {
      forall i | 0 <= i < |runs|
        ensures runs[i].startedAt < cutoff
      {
        assert Age(runs[0]) <= Age(runs[i]);
      }
    }
  }

  /** The runs deleted for their age are a tail of the listing. */
  lemma {:induction false} OlderIsTail(runs: seq<Run>, cutoff: int, n: nat, k: nat)
    requires n <= |runs| && k <= |runs|
    requires forall i :: 0 <= i < |runs| ==> (runs[i].startedAt < cutoff <==> i >= k)
    ensures Older(runs[..n], cutoff) == if n <= k then [] else runs[k..n]
    decreases n
  {
    if n == 0 {
    } else {
      assert runs[..n][..n - 1] == runs[..n - 1];
      OlderIsTail(runs, cutoff, n - 1, k);
    }
  }

  lemma OlderCut(runs: seq<Run>, cutoff: int)
    requires Sorted(Age, runs)
    ensures Older(runs, cutoff) == runs[Young(runs, cutoff)..]
  {
    YoungSplits(runs, cutoff);
    OlderIsTail(runs, cutoff, |runs|, Young(runs, cutoff));
    assert runs[..|runs|] == runs;
  }

  function RunIds(runs: seq<Run>): set<RunId> {
    set r | r in runs :: r.id
  }

  lemma {:induction false} DeleteEachDeletes(dirs: Dirs, runs: seq<Run>)
    ensures DeleteEach(dirs, runs, map[]) == dirs - RunIds(runs)
    ensures Deleted(runs, map[]) == |runs|
    decreases |runs|
  {
    if runs == [] {
    } else {
      var n := |runs| - 1;
      DeleteEachDeletes(dirs, runs[..n]);
      assert runs == runs[..n] + [runs[n]];
      assert RunIds(runs) == RunIds(runs[..n]) + {runs[n].id};
    }
  }

  /** Deleting a tail of the listing leaves the front as the listing. */
  lemma CutLeavesFront(dirs: Dirs, runs: seq<Run>, k: nat)
    requires NamesItself(dirs) && ListsEach(dirs, runs) && k <= |runs|
    ensures var after := DeleteEach(dirs, runs[k..], map[]);
      NamesItself(after) && ListsEach(after, runs[..k])
  {
    var after := DeleteEach(dirs, runs[k..], map[]);
    DeleteEachDeletes(dirs, runs[k..]);
    ListingMembers(dirs, runs);
    forall r
      ensures multiset(runs[..k])[r] == multiset(Listed(after))[r]
    {
      FrontIsListed(dirs, runs, k, r);
      AtMostOnce(runs[..k], r);
    }
  }

  lemma FrontIsListed(dirs: Dirs, runs: seq<Run>, k: nat, r: Run)
    requires NamesItself(dirs) && k <= |runs|
    requires forall x :: x in runs <==> x in Listed(dirs)
    requires forall i, j :: 0 <= i < j < |runs| ==> runs[i] != runs[j]
    ensures r in runs[..k] <==> r in Listed(dirs - RunIds(runs[k..]))
  {
    if r in runs[..k] {
      var i :| 0 <= i < k && runs[..k][i] == r;
      assert runs[i] in runs;
      forall x | x in runs[k..]
        ensures x.id != r.id
      {
        var j :| 0 <= j < |runs| - k && runs[k..][j] == x;
        assert runs[k + j] == x && x in runs;
      }
      assert r.id !in RunIds(runs[k..]);
      assert (dirs - RunIds(runs[k..]))[r.id] == Some(r);
    } else if r in runs {
      assert runs == runs[..k] + runs[k..];
      assert r.id in RunIds(runs[k..]);
    }
  }

  lemma FindsRun(dirs: Dirs, runs: seq<Run>, i: nat)
    requires NamesItself(dirs) && ListsEach(dirs, runs) && i < |runs|
    ensures runs[i].id in dirs && dirs[runs[i].id] == Some(runs[i])
  {
    assert runs[i] in multiset(runs);
    assert runs[i] in Listed(dirs);
  }

  // With no failing delete:

  function AfterAge(dirs: Dirs, runs: seq<Run>, cutoff: int): Dirs {
    DeleteEach(dirs, Older(runs, cutoff), map[])
  }

  function AfterCount(dirs: Dirs, runs: seq<Run>, keepCount: nat): Dirs {
    DeleteEach(dirs, Excess(runs, keepCount), map[])
  }

  /** Count cleaning leaves exactly the `keepCount` newest runs listed, or all if there are
      fewer, leaves everything it did not delete as it was, and returns how many it deleted. */
  lemma ExcessLeavesTheNewest(dirs: Dirs, runs: seq<Run>, keepCount: nat)
    requires NamesItself(dirs) && ListsEach(dirs, runs)
    ensures var m := Min(keepCount, |runs|); var after := AfterCount(dirs, runs, keepCount);
      && NamesItself(after) && ListsEach(after, runs[..m])
      && after == dirs - RunIds(runs[m..])
      && Deleted(Excess(runs, keepCount), map[]) == |runs| - m
  {
    var m := Min(keepCount, |runs|);
    assert Excess(runs, keepCount) == runs[m..];
    CutLeavesFront(dirs, runs, m);
    DeleteEachDeletes(dirs, runs[m..]);
  }

  /** Age cleaning leaves exactly the runs that are not older than the cutoff. */
  lemma {:induction false} AgeLeavesTheYoung(dirs: Dirs, runs: seq<Run>, cutoff: int)
    requires NamesItself(dirs) && ListsEach(dirs, runs)
    ensures var k := Young(runs, cutoff); var after := AfterAge(dirs, runs, cutoff);
      && NamesItself(after) && ListsEach(after, runs[..k])
      && after == dirs - RunIds(runs[k..])
      && Deleted(Older(runs, cutoff), map[]) == |runs| - k
      && forall i :: 0 <= i < |runs| ==> (i < k <==> runs[i].startedAt >= cutoff)
  {
    OlderCut(runs, cutoff);
    YoungSplits(runs, cutoff);
    CutLeavesFront(dirs, runs, Young(runs, cutoff));
    DeleteEachDeletes(dirs, runs[Young(runs, cutoff)..]);
  }

  /** Whatever deletes fail, none of the newest `keepCount` runs is touched. */
  lemma {:induction false} NewestAreSafe(dirs: Dirs, runs: seq<Run>, keepCount: nat, faults: Faults, n: nat, i: nat)
    requires NamesItself(dirs) && ListsEach(dirs, runs)
    requires i < keepCount <= |runs| && n <= |runs| - keepCount
    ensures var after := DeleteEach(dirs, runs[keepCount..][..n], faults);
      runs[i].id in after && after[runs[i].id] == Some(runs[i])
    decreases n
  {
    FindsRun(dirs, runs, i);
    if n == 0 {
    } else {
      NewestAreSafe(dirs, runs, keepCount, faults, n - 1, i);
      FindsRun(dirs, runs, keepCount + n - 1);
      ListingMembers(dirs, runs);
      StepEach(dirs, runs[keepCount..], n - 1, faults);
    }
  }

  // ----- the two cleanings in either order

  lemma YoungOfFront(runs: seq<Run>, cutoff: int, n: nat)
    requires Sorted(Age, runs) && n <= |runs|
    ensures Young(runs[..n], cutoff) == Min(n, Young(runs, cutoff))
  {
    YoungSplits(runs, cutoff);
    YoungSplits(runs[..n], cutoff);
    var k, k' := Young(runs, cutoff), Young(runs[..n], cutoff);
    if k' < n {
      assert runs[..n][k'] == runs[k'];
    }
    if 0 < k' {
      assert runs[..n][k' - 1] == runs[k' - 1];
    }
  }

  /** The number of young runs does not depend on how ties are ordered. */
  lemma {:induction false} YoungAgrees(p: seq<Run>, q: seq<Run>, cutoff: int)
    requires |p| == |q| && forall i :: 0 <= i < |p| ==> p[i].startedAt == q[i].startedAt
    ensures Young(p, cutoff) == Young(q, cutoff)
    decreases |p|
  {
    if p == [] {
    } else {
      YoungAgrees(p[1..], q[1..], cutoff);
    }
  }

  lemma ListingsAgree(dirs: Dirs, p: seq<Run>, q: seq<Run>)
    requires ListsEach(dirs, p) && ListsEach(dirs, q)
    ensures |p| == |q| && forall i :: 0 <= i < |p| ==> p[i].startedAt == q[i].startedAt
    ensures Strict(Age, p) ==> p == q
  {
    SortedKeysAgree(Age, p, q);
    forall i | 0 <= i < |p|
      ensures p[i].startedAt == q[i].startedAt
    {
      assert Keys(Age, p)[i] == Keys(Age, q)[i];
    }
    if Strict(Age, p) {
      StrictIsUnique(Age, p, q);
    }
  }

  lemma IdsOfTail(runs: seq<Run>, m: nat, k: nat)
    requires m <= k <= |runs|
    ensures RunIds(runs[k..]) + RunIds(runs[..k][m..]) == RunIds(runs[m..])
  {
    assert runs[m..] == runs[..k][m..] + runs[k..];
  }

  /** A listing `l2` of runs like the first of `l1`, of which the first `m` are left. */
  predicate Leaves(dirs: Dirs, l1: seq<Run>, l2: seq<Run>, m: nat, after: Dirs, removed: nat) {
    && m <= |l1| && m <= |l2|
    && ListsEach(after, l2[..m])
    && removed == |l1| - m
    && (forall i :: 0 <= i < m ==> l2[i].startedAt == l1[i].startedAt)
    && (Strict(Age, l1) ==> after == dirs - RunIds(l1[m..]))
  }

  lemma StrictFront(runs: seq<Run>, k: nat)
    requires k <= |runs|
    ensures Strict(Age, runs) ==> Strict(Age, runs[..k])
  {
  }

  lemma SubtractTwice(dirs: Dirs, a: set<RunId>, b: set<RunId>)
    ensures dirs - a - b == dirs - (a + b)
  {
  }

  lemma CutTwice(dirs: Dirs, l1: seq<Run>, l2: seq<Run>, k: nat, m: nat, d1: Dirs, after: Dirs)
    requires m <= k <= |l1| && ListsEach(d1, l1[..k]) && ListsEach(d1, l2)
    requires d1 == dirs - RunIds(l1[k..]) && m <= |l2| && after == d1 - RunIds(l2[m..]) && ListsEach(after, l2[..m])
    ensures Leaves(dirs, l1, l2, m, after, |l1| - m)
  {
    hide ListsEach, RunIds, Strict;
    ListingsAgree(d1, l1[..k], l2);
    IdsOfTail(l1, m, k);
    StrictFront(l1, k);
    SubtractTwice(dirs, RunIds(l1[k..]), RunIds(l1[..k][m..]));
  }

  /** Age cleaning on the listing `l1`, then count cleaning on the listing `l2`. */
  lemma AgeThenCount(dirs: Dirs, cutoff: int, keepCount: nat, l1: seq<Run>, l2: seq<Run>)
    requires NamesItself(dirs) && ListsEach(dirs, l1) && ListsEach(AfterAge(dirs, l1, cutoff), l2)
    ensures Leaves(dirs, l1, l2, Min(keepCount, Young(l1, cutoff)), AfterCount(AfterAge(dirs, l1, cutoff), l2, keepCount),
                   Deleted(Older(l1, cutoff), map[]) + Deleted(Excess(l2, keepCount), map[]))
  {
    hide ListsEach, NamesItself, AfterAge, AfterCount, Leaves, Young, Older, Excess, Deleted, RunIds, Strict;
    var k, d1 := Young(l1, cutoff), AfterAge(dirs, l1, cutoff);
    AgeLeavesTheYoung(dirs, l1, cutoff);
    ListingsAgree(d1, l1[..k], l2);
    ExcessLeavesTheNewest(d1, l2, keepCount);
    CutTwice(dirs, l1, l2, k, Min(keepCount, k), d1, AfterCount(d1, l2, keepCount));
  }

  lemma YoungOfCut(dirs: Dirs, l1: seq<Run>, k: nat, d1: Dirs, l2: seq<Run>, cutoff: int)
    requires ListsEach(dirs, l1) && k <= |l1| && ListsEach(d1, l1[..k]) && ListsEach(d1, l2)
    ensures Young(l2, cutoff) == Min(k, Young(l1, cutoff))
  {
    YoungOfFront(l1, cutoff, k);
    ListingsAgree(d1, l1[..k], l2);
    YoungAgrees(l1[..k], l2, cutoff);
  }

  /** Count cleaning on the listing `l1`, then age cleaning on the listing `l2`. */
  lemma CountThenAge(dirs: Dirs, cutoff: int, keepCount: nat, l1: seq<Run>, l2: seq<Run>)
    requires NamesItself(dirs) && ListsEach(dirs, l1) && ListsEach(AfterCount(dirs, l1, keepCount), l2)
    ensures Leaves(dirs, l1, l2, Min(keepCount, Young(l1, cutoff)), AfterAge(AfterCount(dirs, l1, keepCount), l2, cutoff),
                   Deleted(Excess(l1, keepCount), map[]) + Deleted(Older(l2, cutoff), map[]))
  {
    hide ListsEach, NamesItself, AfterAge, AfterCount, Leaves, Young, Older, Excess, Deleted, RunIds, Strict;
    var k, d1 := Min(keepCount, |l1|), AfterCount(dirs, l1, keepCount);
    ExcessLeavesTheNewest(dirs, l1, keepCount);
    ListingsAgree(d1, l1[..k], l2);
    YoungOfCut(dirs, l1, k, d1, l2, cutoff);
    AgeLeavesTheYoung(d1, l2, cutoff);
    CutTwice(dirs, l1, l2, k, Min(k, Young(l1, cutoff)), d1, AfterAge(d1, l2, cutoff));
  }

  /** In either order the two cleanings delete equally many runs and leave runs with the same
      start times; when no two runs started together, they leave the same runs. */
  lemma {:induction false} CleaningsCommute(dirs: Dirs, cutoff: int, keepCount: nat, a1: seq<Run>, a2: seq<Run>, c1: seq<Run>, c2: seq<Run>)
    requires NamesItself(dirs)
    requires ListsEach(dirs, a1) && ListsEach(AfterAge(dirs, a1, cutoff), a2)
    requires ListsEach(dirs, c1) && ListsEach(AfterCount(dirs, c1, keepCount), c2)
    ensures Deleted(Older(a1, cutoff), map[]) + Deleted(Excess(a2, keepCount), map[]) ==
            Deleted(Excess(c1, keepCount), map[]) + Deleted(Older(c2, cutoff), map[])
    ensures exists p, q ::
      && ListsEach(AfterCount(AfterAge(dirs, a1, cutoff), a2, keepCount), p)
      && ListsEach(AfterAge(AfterCount(dirs, c1, keepCount), c2, cutoff), q)
      && Keys(Age, p) == Keys(Age, q)
    ensures Strict(Age, a1) ==>
      AfterCount(AfterAge(dirs, a1, cutoff), a2, keepCount) == AfterAge(AfterCount(dirs, c1, keepCount), c2, cutoff)
  {
    hide ListsEach, AfterAge, AfterCount, NamesItself, Strict, Young, Older, Excess, Deleted;
    ListingsAgree(dirs, a1, c1);
    YoungAgrees(a1, c1, cutoff);
    AgeThenCount(dirs, cutoff, keepCount, a1, a2);
    CountThenAge(dirs, cutoff, keepCount, c1, c2);
    var m := Min(keepCount, Young(a1, cutoff));
    var p, q := a2[..m], c2[..m];
    forall i | 0 <= i < m
      ensures Keys(Age, p)[i] == Keys(Age, q)[i]
    {
      assert p[i].startedAt == a1[i].startedAt == c1[i].startedAt == q[i].startedAt;
    }
    assert Keys(Age, p) == Keys(Age, q);
  }

  // ----- metadata that names another directory

  /** A directory whose metadata names another run misleads the cleaning: it counts a deletion
      and the directory stays. */
  lemma {:induction false} ForeignMetadataMisleads()
    ensures var dirs, runs := map[1 := Some(Run(2, 0))], [Run(2, 0)];
      && IsListing(dirs, runs) && !NamesItself(dirs)
      && AfterCount(dirs, runs, 0) == dirs
      && Deleted(Excess(runs, 0), map[]) == 1
  {
    var dirs, runs := map[1 := Some(Run(2, 0))], [Run(2, 0)];
    ForeignListing(dirs);
    DeleteEachDeletes(dirs, runs);
    hide Sorted, Metadata, DeleteEach, Deleted, IsListing;
    assert Excess(runs, 0) == runs;
    assert RunIds(runs) == {2};
    assert dirs - {2} == dirs;
    assert 1 in dirs && dirs[1].value.id == 2;
  }

  lemma ForeignListing(dirs: Dirs)
    requires dirs == map[1 := Some(Run(2, 0))]
    ensures IsListing(dirs, [Run(2, 0)])
  {
    var entries: seq<RunId> := [1];
    assert dirs.Keys == {1};
    assert Enumerates(entries, dirs);
    assert entries[..0] == [];
    assert Metadata(dirs, entries) == [Run(2, 0)];
  }
}
