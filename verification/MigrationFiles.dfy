/** Loading the migration list from several file trees. */
module MigrationFiles {
  import opened Sorting
  import opened Wrappers

  datatype Migration = Migration(version: int, name: string, sql: string)

  /** A directory entry, by what its name says: a directory, a down file, a name without a
      version, or an up file with its text (`None` when it cannot be read). */
  datatype Entry = Dir | DownFile | Unversioned | UpFile(version: int, name: string, sql: Option<string>)

  /** The entries of a source's migrations directory; `None` when it has none. */
  type Source = Option<seq<Entry>>

  datatype LoadError = VersionConflict(version: int) | Unreadable(name: string)

  // ----- what the files say

  function UpFiles(entries: seq<Entry>): seq<Entry> {
    if entries == [] then []
    else
      var n := |entries| - 1;
      if entries[n].UpFile? then UpFiles(entries[..n]) + [entries[n]] else UpFiles(entries[..n])
  }

  function AllFiles(sources: seq<Source>): seq<Entry> {
    if sources == [] then []
    else
      var n := |sources| - 1;
      AllFiles(sources[..n]) + if sources[n].Some? then UpFiles(sources[n].value) else []
  }

  predicate ReadsAs(files: seq<Entry>, ms: seq<Migration>) {
    && |ms| == |files|
    && forall i :: 0 <= i < |ms| ==>
         files[i].UpFile? && files[i].sql.Some? && ms[i] == Migration(files[i].version, files[i].name, files[i].sql.value)
  }

  /** The files can be loaded: each is readable and no two claim the same version. */
  predicate Loadable(files: seq<Entry>) {
    && (forall i :: 0 <= i < |files| ==> files[i].UpFile? && files[i].sql.Some?)
    && (forall i, j :: 0 <= i < j < |files| && files[i].UpFile? && files[j].UpFile? ==> files[i].version != files[j].version)
  }

  predicate StrictlyIncreasing(ms: seq<Migration>) {
    forall i, j :: 0 <= i < j < |ms| ==> ms[i].version < ms[j].version
  }

  function VersionOf(m: Migration): int {
    m.version
  }

  // ----- loading

  lemma UpFilesSnoc(entries: seq<Entry>, j: nat)
    requires j < |entries|
    ensures UpFiles(entries[..j + 1]) ==
            if entries[j].UpFile? then UpFiles(entries[..j]) + [entries[j]] else UpFiles(entries[..j])
  {
    assert entries[..j + 1][..j] == entries[..j];
  }

  lemma {:induction false} UpFilesPrefix(entries: seq<Entry>, j: nat)
    requires j <= |entries|
    ensures UpFiles(entries[..j]) <= UpFiles(entries)
    decreases |entries|
  {
    if j < |entries| {
      var n := |entries| - 1;
      UpFilesPrefix(entries[..n], j);
      assert entries[..n][..j] == entries[..j];
    } else {
      assert entries[..j] == entries;
    }
  }

  /** The files met up to entry `j` of source `i`. */
  function Met(sources: seq<Source>, i: nat, j: nat): seq<Entry>
    requires i < |sources| && sources[i].Some? && j <= |sources[i].value|
  {
    AllFiles(sources[..i]) + UpFiles(sources[i].value[..j])
  }

  lemma AllFilesSnoc(sources: seq<Source>, i: nat)
    requires i < |sources|
    ensures AllFiles(sources[..i + 1]) ==
            AllFiles(sources[..i]) + if sources[i].Some? then UpFiles(sources[i].value) else []
  {
    assert sources[..i + 1][..i] == sources[..i];
  }

  lemma {:induction false} AllFilesPrefix(sources: seq<Source>, i: nat)
    requires i <= |sources|
    ensures AllFiles(sources[..i]) <= AllFiles(sources)
    decreases |sources|
  {
    if i < |sources| {
      var n := |sources| - 1;
      AllFilesPrefix(sources[..n], i);
      assert sources[..n][..i] == sources[..i];
    } else {
      assert sources[..i] == sources;
    }
  }

  lemma MetIsPrefix(sources: seq<Source>, i: nat, j: nat)
    requires i < |sources| && sources[i].Some? && j <= |sources[i].value|
    ensures Met(sources, i, j) <= AllFiles(sources)
  {
    AllFilesSnoc(sources, i);
    UpFilesPrefix(sources[i].value, j);
    AllFilesPrefix(sources, i + 1);
  }

  lemma UnloadablePrefix(a: seq<Entry>, b: seq<Entry>)
    requires a <= b && !Loadable(a)
    ensures !Loadable(b)
  {
    assert a == b[..|a|];
  }

  ghost predicate HasVersion(ms: seq<Migration>, v: int) {
    exists i :: 0 <= i < |ms| && ms[i].version == v
  }

  /** `seen` holds exactly the versions loaded so far. */
  ghost predicate Collected(files: seq<Entry>, ms: seq<Migration>, seen: map<int, string>) {
    && Loadable(files) && ReadsAs(files, ms)
    && forall v :: v in seen <==> HasVersion(ms, v)
  }

  lemma CollectOne(files: seq<Entry>, ms: seq<Migration>, seen: map<int, string>, e: Entry)
    requires Collected(files, ms, seen) && e.UpFile?
    ensures e.version in seen || e.sql.None? <==> !Loadable(files + [e])
    ensures e.version !in seen && e.sql.Some? ==>
              Collected(files + [e], ms + [Migration(e.version, e.name, e.sql.value)], seen[e.version := e.name])
  {
    var files' := files + [e];
    assert files'[|files|] == e;
    if e.version in seen {
      var i :| 0 <= i < |ms| && ms[i].version == e.version;
      assert files'[i].version == e.version;
    } else if e.sql.Some? {
      var ms' := ms + [Migration(e.version, e.name, e.sql.value)];
      assert ms'[|ms|].version == e.version;
      forall v
        ensures v in seen[e.version := e.name] <==> HasVersion(ms', v)
      {
        if v in seen {
          var i :| 0 <= i < |ms| && ms[i].version == v;
          assert ms'[i].version == v;
        }
      }
    }
  }

  lemma CollectedIsDistinct(files: seq<Entry>, ms: seq<Migration>, seen: map<int, string>)
    requires Collected(files, ms, seen)
    ensures DistinctKeys(VersionOf, ms)
  {
  }

  /** Every file once, in strictly increasing version order. */
  ghost predicate IsPlan(files: seq<Entry>, plan: seq<Migration>) {
    && StrictlyIncreasing(plan)
    && exists ms :: ReadsAs(files, ms) && multiset(ms) == multiset(plan)
  }

  /** Whatever the sort does, the files have one plan. */
  lemma PlanIsUnique(files: seq<Entry>, p: seq<Migration>, q: seq<Migration>)
    requires IsPlan(files, p) && IsPlan(files, q)
    ensures p == q
  {
    var ms :| ReadsAs(files, ms) && multiset(ms) == multiset(p);
    var ns :| ReadsAs(files, ns) && multiset(ns) == multiset(q);
    assert ms == ns;
    StrictIsUnique(VersionOf, p, q);
  }

  /** What the error says about the first file that stops the loading. */
  ghost predicate IsProblem(files: seq<Entry>, n: nat, error: LoadError) {
    && n < |files| && Loadable(files[..n]) && files[n].UpFile?
    && var taken := exists i :: 0 <= i < n && files[i].UpFile? && files[i].version == files[n].version;
       match error
       case VersionConflict(v) => v == files[n].version && taken
       case Unreadable(name) => name == files[n].name && files[n].sql.None? && !taken
  }

  lemma {:induction false} ProblemFound(files: seq<Entry>, ms: seq<Migration>, seen: map<int, string>, e: Entry, all: seq<Entry>)
    requires Collected(files, ms, seen) && e.UpFile? && files + [e] <= all
    ensures e.version in seen ==> IsProblem(all, |files|, VersionConflict(e.version))
    ensures e.version !in seen && e.sql.None? ==> IsProblem(all, |files|, Unreadable(e.name))
  {
    assert all[..|files|] == files && all[|files|] == e;
    if e.version in seen {
      var i :| 0 <= i < |ms| && ms[i].version == e.version;
      assert all[i] == files[i];
    } else {
      forall i | 0 <= i < |files|
        ensures files[i].version != e.version
      {
        assert ms[i].version == files[i].version;
      }
    }
  }

  // ----- which files there are

  /** Entry `j` of source `i` is an up file. */
  predicate FileAt(sources: seq<Source>, i: nat, j: nat) {
    i < |sources| && sources[i].Some? && j < |sources[i].value| && sources[i].value[j].UpFile?
  }

  /** Its position among all files. */
  function Place(sources: seq<Source>, i: nat, j: nat): nat
    requires FileAt(sources, i, j)
  {
    |Met(sources, i, j)|
  }

  lemma PlaceHolds(sources: seq<Source>, i: nat, j: nat)
    requires FileAt(sources, i, j)
    ensures Place(sources, i, j) < |AllFiles(sources)| && AllFiles(sources)[Place(sources, i, j)] == sources[i].value[j]
  {
    hide UpFiles, AllFiles;
    MetOne(sources, i, j);
    MetIsPrefix(sources, i, j + 1);
  }

  lemma PlacesAscend(sources: seq<Source>, i: nat, j: nat, i': nat, j': nat)
    requires FileAt(sources, i, j) && FileAt(sources, i', j')
    requires i < i' || (i == i' && j < j')
    ensures Place(sources, i, j) < Place(sources, i', j')
  {
    hide UpFiles, AllFiles;
    MetOne(sources, i, j);
    if i == i' {
      UpFilesPrefix(sources[i].value[..j'], j + 1);
      assert sources[i].value[..j'][..j + 1] == sources[i].value[..j + 1];
    } else {
      MetIsPrefix(sources, i, j + 1);
      AllFilesSnoc(sources, i);
      UpFilesPrefix(sources[i].value, j + 1);
      AllFilesPrefix(sources[..i'], i + 1);
      assert sources[..i'][..i + 1] == sources[..i + 1];
    }
  }

  lemma {:induction false} UpFileExists(entries: seq<Entry>, n: nat)
    requires n < |UpFiles(entries)|
    ensures exists j: nat :: j < |entries| && entries[j].UpFile? && |UpFiles(entries[..j])| == n
    decreases |entries|
  {
    var m := |entries| - 1;
    if n < |UpFiles(entries[..m])| {
      UpFileExists(entries[..m], n);
      var j: nat :| j < m && entries[..m][j].UpFile? && |UpFiles(entries[..m][..j])| == n;
      assert entries[..m][..j] == entries[..j] && entries[j] == entries[..m][j];
    } else {
      assert entries[m].UpFile? && |UpFiles(entries[..m])| == n;
    }
  }

  lemma {:induction false} PlaceExists(sources: seq<Source>, n: nat)
    requires n < |AllFiles(sources)|
    ensures exists i: nat, j: nat :: FileAt(sources, i, j) && Place(sources, i, j) == n
    decreases |sources|
  {
    hide UpFiles;
    var m := |sources| - 1;
    var before := |AllFiles(sources[..m])|;
    if n < before {
      PlaceExists(sources[..m], n);
      var i: nat, j: nat :| FileAt(sources[..m], i, j) && Place(sources[..m], i, j) == n;
      assert sources[..m][..i] == sources[..i];
      assert FileAt(sources, i, j) && Place(sources, i, j) == n;
    } else {
      var entries := sources[m].value;
      UpFileExists(entries, n - before);
      var j: nat :| j < |entries| && entries[j].UpFile? && |UpFiles(entries[..j])| == n - before;
      assert FileAt(sources, m, j) && Place(sources, m, j) == n;
    }
  }

  ghost predicate AllReadable(sources: seq<Source>) {
    forall i: nat, j: nat :: FileAt(sources, i, j) ==> sources[i].value[j].sql.Some?
  }

  ghost predicate NoConflict(sources: seq<Source>) {
    forall i: nat, j: nat, i': nat, j': nat ::
      FileAt(sources, i, j) && FileAt(sources, i', j') && (i, j) != (i', j') ==>
        sources[i].value[j].version != sources[i'].value[j'].version
  }

  lemma PlacesDiffer(sources: seq<Source>, i: nat, j: nat, i': nat, j': nat)
    requires FileAt(sources, i, j) && FileAt(sources, i', j') && (i, j) != (i', j')
    ensures Place(sources, i, j) != Place(sources, i', j')
  {
    hide FileAt, Place;
    if i < i' || (i == i' && j < j') {
      PlacesAscend(sources, i, j, i', j');
    } else {
      PlacesAscend(sources, i', j', i, j);
    }
  }

  /** Loadable, said of the sources: every up file can be read, and no two of them, in one
      source or in different ones, claim the same version. */
  lemma {:induction false} LoadableMeans(sources: seq<Source>)
    ensures Loadable(AllFiles(sources)) <==> AllReadable(sources) && NoConflict(sources)
  {
    hide AllFiles, UpFiles, Place;
    var files := AllFiles(sources);
    if Loadable(files) {
      forall i: nat, j: nat | FileAt(sources, i, j)
        ensures sources[i].value[j].sql.Some?
      {
        PlaceHolds(sources, i, j);
      }
      forall i: nat, j: nat, i': nat, j': nat | FileAt(sources, i, j) && FileAt(sources, i', j') && (i, j) != (i', j')
        ensures sources[i].value[j].version != sources[i'].value[j'].version
      {
        PlaceHolds(sources, i, j);
        PlaceHolds(sources, i', j');
        PlacesDiffer(sources, i, j, i', j');
      }
    }
    if AllReadable(sources) && NoConflict(sources) {
      forall n | 0 <= n < |files|
        ensures files[n].UpFile? && files[n].sql.Some?
      {
        var _, _ := FileOf(sources, n);
      }
      forall n, n' | 0 <= n < n' < |files|
        ensures files[n].UpFile? && files[n'].UpFile? ==> files[n].version != files[n'].version
      {
        var i, j := FileOf(sources, n);
        var i', j' := FileOf(sources, n');
        assert (i, j) != (i', j');
      }
    }
  }

  lemma FileOf(sources: seq<Source>, n: nat) returns (i: nat, j: nat)
    requires n < |AllFiles(sources)|
    ensures FileAt(sources, i, j) && Place(sources, i, j) == n && AllFiles(sources)[n] == sources[i].value[j]
  {
    hide AllFiles, Place, FileAt;
    PlaceExists(sources, n);
    i, j :| FileAt(sources, i, j) && Place(sources, i, j) == n;
    PlaceHolds(sources, i, j);
  }

  /** The plan holds exactly the migrations of the up files. */
  lemma {:induction false} PlanHoldsTheFiles(sources: seq<Source>, plan: seq<Migration>, m: Migration)
    requires IsPlan(AllFiles(sources), plan)
    ensures m in plan <==> exists i: nat, j: nat ::
              FileAt(sources, i, j) && sources[i].value[j] == UpFile(m.version, m.name, Some(m.sql))
  {
    hide AllFiles, UpFiles, Place;
    var files := AllFiles(sources);
    var ms :| ReadsAs(files, ms) && multiset(ms) == multiset(plan);
    assert m in plan <==> m in multiset(ms);
    if m in plan {
      var n :| 0 <= n < |ms| && ms[n] == m;
      var _, _ := FileOf(sources, n);
    }
    if i: nat, j: nat :| FileAt(sources, i, j) && sources[i].value[j] == UpFile(m.version, m.name, Some(m.sql)) {
      PlaceHolds(sources, i, j);
      assert ms[Place(sources, i, j)] == m;
    }
  }

  /** Succeeds exactly on loadable file sets, and then returns their plan. */
  method LoadMigrations(sources: seq<Source>) returns (r: Result<seq<Migration>, LoadError>)
    ensures r.Ok? <==> Loadable(AllFiles(sources))
    ensures r.Ok? ==> IsPlan(AllFiles(sources), r.value)
    ensures r.Err? ==> exists n :: IsProblem(AllFiles(sources), n, r.error)
  {
    hide UpFiles, AllFiles, Loadable, ReadsAs, Collected;
    var migrations: seq<Migration> := [];
    var seen: map<int, string> := map[];
    NothingCollected(sources);
    for i := 0 to |sources|
      invariant Collected(AllFiles(sources[..i]), migrations, seen)
    {
      AllFilesSnoc(sources, i);
      if sources[i].Some? {
        var entries := sources[i].value;
        NothingMet(sources, i);
        for j := 0 to |entries|
          invariant Collected(Met(sources, i, j), migrations, seen)
        {
          MetOne(sources, i, j);
          MetIsPrefix(sources, i, j + 1);
          if entries[j].UpFile? {
            var e := entries[j];
            CollectOne(Met(sources, i, j), migrations, seen, e);
            ProblemFound(Met(sources, i, j), migrations, seen, e, AllFiles(sources));
            if e.version in seen {
              UnloadablePrefix(Met(sources, i, j + 1), AllFiles(sources));
              return Err(VersionConflict(e.version));
            }
            if e.sql.None? {
              UnloadablePrefix(Met(sources, i, j + 1), AllFiles(sources));
              return Err(Unreadable(e.name));
            }
            seen := seen[e.version := e.name];
            migrations := migrations + [Migration(e.version, e.name, e.sql.value)];
          }
        }
        assert entries[..|entries|] == entries;
      } else {
        assert AllFiles(sources[..i]) + [] == AllFiles(sources[..i]);
      }
    }
    assert sources[..|sources|] == sources;
    CollectedIsDistinct(AllFiles(sources), migrations, seen);
    CollectedIsLoaded(AllFiles(sources), migrations, seen);
    SortOfDistinct(VersionOf, migrations);
    r := Ok(Sort(VersionOf, migrations));
  }

  lemma NothingCollected(sources: seq<Source>)
    ensures Collected(AllFiles(sources[..0]), [], map[])
  {
  }

  lemma NothingMet(sources: seq<Source>, i: nat)
    requires i < |sources| && sources[i].Some?
    ensures Met(sources, i, 0) == AllFiles(sources[..i])
  {
  }

  lemma MetOne(sources: seq<Source>, i: nat, j: nat)
    requires i < |sources| && sources[i].Some? && j < |sources[i].value|
    ensures var e := sources[i].value[j];
      Met(sources, i, j + 1) == if e.UpFile? then Met(sources, i, j) + [e] else Met(sources, i, j)
  {
    UpFilesSnoc(sources[i].value, j);
  }

  lemma CollectedIsLoaded(files: seq<Entry>, ms: seq<Migration>, seen: map<int, string>)
    requires Collected(files, ms, seen)
    ensures Loadable(files) && ReadsAs(files, ms)
  {
  }
}
