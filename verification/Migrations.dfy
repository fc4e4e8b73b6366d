/** Applying and rolling back migrations against a database whose statements may fail. */
module Migrations {
  import opened Ids
  import opened MigrationFiles
  import opened Wrappers

  /** SQL whose effect was committed. */
  datatype Change = Up(version: int) | Down(version: int)

  /** A row of schema_migrations; the version is its key. */
  datatype Applied = Applied(name: string, at: Time)

  /** The schema_migrations table (`None` until it is created) and the committed SQL. */
  datatype State = State(table: Option<map<int, Applied>>, log: seq<Change>)

  /** Where a migration's transaction fails.  A failing COMMIT may or may not have taken effect. */
  datatype TxFault = NoFault | BeginFails | ExecFails | RecordFails | CommitFails(applied: bool)

  /** How the transaction of a migration goes, and when it records the migration. */
  datatype Tx = Tx(fault: TxFault, at: Time)

  datatype MigrateError = TableNotReadable | MigrationsNotLoaded | TransactionFailed(version: int) | NoDownMigration(version: int)

  function Recorded(s: State): map<int, Applied> {
    if s.table.None? then map[] else s.table.value
  }

  function Names(rows: map<int, Applied>): map<int, string> {
    map v | v in rows :: rows[v].name
  }

  // ----- one transaction

  /** Runs `m` and records it.  The version is the table's primary key, so recording a
      recorded version again fails and takes the SQL with it. */
  function ApplyOne(s: State, m: Migration, tx: Tx): State {
    if m.version in Recorded(s) || !(tx.fault.NoFault? || tx.fault == CommitFails(true)) then s
    else State(Some(Recorded(s)[m.version := Applied(m.name, tx.at)]), s.log + [Up(m.version)])
  }

  predicate Applies(s: State, m: Migration, tx: Tx) {
    m.version !in Recorded(s) && tx.fault.NoFault?
  }

  function RollBackOne(s: State, version: int, fault: TxFault): State {
    if !(fault.NoFault? || fault == CommitFails(true)) then s
    else State(Some(Recorded(s) - {version}), s.log + [Down(version)])
  }

  // ----- calls

  /** `applied` are the versions the scan of the table yielded; `txs` says how the transaction
      of each version goes. */
  function ApplyFrom(s: State, plan: seq<Migration>, i: nat, applied: set<int>, txs: int -> Tx): (State, Option<int>)
    requires i <= |plan|
    decreases |plan| - i
  {
    if i == |plan| then (s, None)
    else
      var m := plan[i];
      var tx := txs(m.version);
      if m.version in applied then ApplyFrom(s, plan, i + 1, applied, txs)
      else if Applies(s, m, tx) then ApplyFrom(ApplyOne(s, m, tx), plan, i + 1, applied, txs)
      else (ApplyOne(s, m, tx), Some(m.version))
  }

  /** The table is created first; a scan that breaks off early goes unnoticed, so `unread`
      versions may be recorded and yet missing from what was read. */
  datatype Call =
    | MigrateCall(createFails: bool, queryFails: bool, loadFails: bool, unread: set<int>, txs: int -> Tx)
    | DownCall(queryFails: bool, downFound: bool, fault: TxFault)

  function Created(s: State): State {
    s.(table := Some(Recorded(s)))
  }

  function AfterMigrate(s: State, plan: seq<Migration>, c: Call): (State, Result<(), MigrateError>)
    requires c.MigrateCall?
  {
    if c.createFails then (s, Err(TableNotReadable))
    else if c.queryFails then (Created(s), Err(TableNotReadable))
    else if c.loadFails then (Created(s), Err(MigrationsNotLoaded))
    else
      var (s', failed) := ApplyFrom(Created(s), plan, 0, Recorded(s).Keys - c.unread, c.txs);
      (s', if failed.None? then Ok(()) else Err(TransactionFailed(failed.value)))
  }

  /** The greatest recorded version. */
  ghost predicate IsLast<T>(rows: map<int, T>, v: int) {
    v in rows && forall w :: w in rows ==> w <= v
  }

  lemma SomeMember(vs: set<int>)
    ensures vs == {} || exists v: int :: v in vs
  {
    if forall v: int :: v !in vs {
      assert vs == {};
    }
  }

  lemma {:induction false} GreatestExists(vs: set<int>)
    requires vs != {}
    ensures exists v :: v in vs && forall w :: w in vs ==> w <= v
  {
    SomeMember(vs);
    var v: int :| v in vs;
    if vs != {v} {
      GreatestExists(vs - {v});
      var u :| u in vs - {v} && forall w :: w in vs - {v} ==> w <= u;
      var top := if u < v then v else u;
      forall w | w in vs
        ensures w <= top
      {
        assert w == v || w in vs - {v};
      }
    }
  }

  lemma LastExists<T>(rows: map<int, T>)
    requires rows != map[]
    ensures exists v :: IsLast(rows, v)
  {
    assert |rows.Keys| > 0;
    GreatestExists(rows.Keys);
    var v :| v in rows.Keys && forall w :: w in rows.Keys ==> w <= v;
    assert IsLast(rows, v);
  }

  lemma LastIsUnique<T>(rows: map<int, T>, v: int, w: int)
    requires IsLast(rows, v) && IsLast(rows, w)
    ensures v == w
  {
  }

  ghost function LastVersion<T>(rows: map<int, T>): (v: int)
    requires rows != map[]
    ensures IsLast(rows, v)
  {
    LastExists(rows);
    var v :| IsLast(rows, v);
    v
  }

  ghost function AfterDown(s: State, c: Call): (State, Result<(), MigrateError>)
    requires c.DownCall?
  {
    if s.table.None? || c.queryFails then (s, Err(TableNotReadable))
    else if Recorded(s) == map[] then (s, Ok(()))
    else
      var v := LastVersion(Recorded(s));
      if !c.downFound then (s, Err(NoDownMigration(v)))
      else (RollBackOne(s, v, c.fault), if c.fault.NoFault? then Ok(()) else Err(TransactionFailed(v)))
  }

  /** `appliedAt` is missing for a pending migration. */
  datatype MigrationInfo = MigrationInfo(version: int, name: string, appliedAt: Option<Time>)

  /** The status line of a migration, from the rows the scan yielded. */
  function InfoOf(rows: map<int, Applied>, m: Migration): MigrationInfo {
    if m.version in rows then MigrationInfo(m.version, rows[m.version].name, Some(rows[m.version].at))
    else MigrationInfo(m.version, m.name, None)
  }

  class DB {
    var state: State

    constructor ()
      ensures state == State(None, [])
    {
      state := State(None, []);
    }

    method Migrate(sources: seq<Source>, createFails: bool, queryFails: bool, unread: set<int>, txs: int -> Tx)
      returns (r: Result<(), MigrateError>, ghost plan: seq<Migration>)
      modifies this
      ensures Loadable(AllFiles(sources)) ==> IsPlan(AllFiles(sources), plan)
      ensures var c := MigrateCall(createFails, queryFails, !Loadable(AllFiles(sources)), unread, txs);
        state == AfterMigrate(old(state), plan, c).0 && r == AfterMigrate(old(state), plan, c).1
    {
      plan := [];
      var loaded := LoadMigrations(sources);
      if loaded.Ok? {
        plan := loaded.value;
      }
      if createFails {
        return Err(TableNotReadable), plan;
      }
      state := Created(state);
      if queryFails {
        return Err(TableNotReadable), plan;
      }
      var applied := Recorded(state).Keys - unread;
      if loaded.Err? {
        return Err(MigrationsNotLoaded), plan;
      }
      var migrations := loaded.value;
      for i := 0 to |migrations|
        invariant ApplyFrom(state, migrations, i, applied, txs) ==
                  ApplyFrom(old(Created(state)), migrations, 0, applied, txs)
      {
        var m := migrations[i];
        if m.version !in applied {
          var tx := txs(m.version);
          var done := Applies(state, m, tx);
          state := ApplyOne(state, m, tx);
          if !done {
            return Err(TransactionFailed(m.version)), plan;
          }
        }
      }
      r := Ok(());
    }

    method MigrateDown(queryFails: bool, downFound: bool, fault: TxFault) returns (r: Result<(), MigrateError>)
      modifies this
      ensures state == AfterDown(old(state), DownCall(queryFails, downFound, fault)).0
      ensures r == AfterDown(old(state), DownCall(queryFails, downFound, fault)).1
    {
      if state.table.None? || queryFails {
        return Err(TableNotReadable);
      }
      var rows := Recorded(state);
      if |rows| == 0 {
        return Ok(());
      }
      ghost var last := LastVersion(rows);
      var version :| version in rows && forall w :: w in rows ==> w <= version;
      LastIsUnique(rows, version, last);
      if !downFound {
        return Err(NoDownMigration(version));
      }
      state := RollBackOne(state, version, fault);
      r := if fault.NoFault? then Ok(()) else Err(TransactionFailed(version));
    }

    method MigrationStatus(sources: seq<Source>, queryFails: bool, unread: set<int>)
      returns (r: Result<seq<MigrationInfo>, MigrateError>, ghost plan: seq<Migration>)
      ensures Loadable(AllFiles(sources)) ==> IsPlan(AllFiles(sources), plan)
      ensures state.table.None? || queryFails ==> r == Err(TableNotReadable)
      ensures state.table.Some? && !queryFails && !Loadable(AllFiles(sources)) ==> r == Err(MigrationsNotLoaded)
      ensures state.table.Some? && !queryFails && Loadable(AllFiles(sources)) ==>
        && r.Ok? && |r.value| == |plan|
        && forall i :: 0 <= i < |plan| ==>
             var v, rows := plan[i].version, state.table.value - unread;
             r.value[i] == if v in rows then MigrationInfo(v, rows[v].name, Some(rows[v].at))
                           else MigrationInfo(v, plan[i].name, None)
    {
      plan := [];
      var loaded := LoadMigrations(sources);
      if loaded.Ok? {
        plan := loaded.value;
      }
      if state.table.None? || queryFails {
        return Err(TableNotReadable), plan;
      }
      var applied := state.table.value - unread;
      if loaded.Err? {
        return Err(MigrationsNotLoaded), plan;
      }
      var result: seq<MigrationInfo> := [];
      for i := 0 to |loaded.value|
        invariant |result| == i
        invariant forall j :: 0 <= j < i ==> result[j] == InfoOf(applied, loaded.value[j])
      {
        result := result + [InfoOf(applied, loaded.value[i])];
      }
      r := Ok(result);
    }
  }

  // ----- what every run keeps

  /** The table of a database on which exactly these migrations are recorded. */
  function RowsOf(ms: seq<Migration>): map<int, string> {
    if ms == [] then map[] else RowsOf(ms[..|ms| - 1])[ms[|ms| - 1].version := ms[|ms| - 1].name]
  }

  /** How far along `plan` a log leads: each Up is the next migration of the plan, each Down
      the latest one not yet undone.  `None` when the log does anything else. */
  function Level(log: seq<Change>, plan: seq<Migration>): Option<nat> {
    if log == [] then Some(0)
    else
      var before, c := Level(log[..|log| - 1], plan), log[|log| - 1];
      if before.None? then None
      else
        var k := before.value;
        match c
        case Up(v) => if k < |plan| && plan[k].version == v then Some(k + 1) else None
        case Down(v) => if 0 < k <= |plan| && plan[k - 1].version == v then Some(k - 1) else None
  }

  /** The first `k` migrations of the plan are recorded and in effect. */
  predicate At(s: State, plan: seq<Migration>, k: nat) {
    && k <= |plan|
    && Names(Recorded(s)) == RowsOf(plan[..k])
    && Level(s.log, plan) == Some(k)
  }

  /** At least the first `k` migrations are recorded and in effect, and then a prefix. */
  ghost predicate Reaches(s: State, plan: seq<Migration>, k: nat) {
    exists m: nat :: k <= m && At(s, plan, m)
  }

  lemma LevelSnoc(log: seq<Change>, c: Change, plan: seq<Migration>, k: nat)
    requires Level(log, plan) == Some(k)
    ensures c.Up? && k < |plan| && plan[k].version == c.version ==> Level(log + [c], plan) == Some(k + 1)
    ensures c.Down? && 0 < k <= |plan| && plan[k - 1].version == c.version ==> Level(log + [c], plan) == Some(k - 1)
  {
    assert (log + [c])[..|log|] == log;
  }

  lemma {:induction false} RecordedInPlan(plan: seq<Migration>, k: nat, v: int)
    requires k <= |plan|
    ensures v in RowsOf(plan[..k]) <==> exists i :: 0 <= i < k && plan[i].version == v
    decreases k
  {
    if k == 0 {
    } else {
      RecordedInPlan(plan, k - 1, v);
      assert plan[..k][..k - 1] == plan[..k - 1];
    }
  }

  lemma RowsGrow(plan: seq<Migration>, k: nat)
    requires k < |plan|
    ensures RowsOf(plan[..k + 1]) == RowsOf(plan[..k])[plan[k].version := plan[k].name]
  {
    assert plan[..k + 1][..k] == plan[..k];
  }

  lemma RowsShrink(plan: seq<Migration>, k: nat)
    requires StrictlyIncreasing(plan) && 0 < k <= |plan|
    ensures RowsOf(plan[..k]) - {plan[k - 1].version} == RowsOf(plan[..k - 1])
    ensures IsLast(RowsOf(plan[..k]), plan[k - 1].version)
  {
    RowsGrow(plan, k - 1);
    RecordedInPlan(plan, k - 1, plan[k - 1].version);
    forall w | w in RowsOf(plan[..k])
      ensures w <= plan[k - 1].version
    {
      RecordedInPlan(plan, k, w);
    }
  }

  /** A transaction for the next migration either moves one step or leaves the state; one
      for a migration that is already recorded changes nothing and fails. */
  lemma ApplyOneMoves(s: State, plan: seq<Migration>, k: nat, i: nat, tx: Tx)
    requires StrictlyIncreasing(plan) && At(s, plan, k) && i <= k && i < |plan|
    ensures i < k ==> ApplyOne(s, plan[i], tx) == s && !Applies(s, plan[i], tx)
    ensures i == k ==> ApplyOne(s, plan[i], tx) == s || At(ApplyOne(s, plan[i], tx), plan, k + 1)
    ensures i == k && Applies(s, plan[i], tx) ==> At(ApplyOne(s, plan[i], tx), plan, k + 1)
  {
    RecordedInPlan(plan, k, plan[i].version);
    if i == k {
      RowsGrow(plan, k);
      LevelSnoc(s.log, Up(plan[k].version), plan, k);
    }
  }

  lemma {:induction false} ApplyFromMoves(s: State, plan: seq<Migration>, i: nat, applied: set<int>, txs: int -> Tx, k: nat)
    requires StrictlyIncreasing(plan) && At(s, plan, k) && i <= k
    requires forall v :: v in applied ==> v in Recorded(s)
    ensures var (s', failed) := ApplyFrom(s, plan, i, applied, txs);
      && Reaches(s', plan, k)
      && (failed.None? ==> At(s', plan, |plan|))
      && (k == |plan| ==> s' == s)
    decreases |plan| - i
  {
    if i == |plan| {
      assert Reaches(s, plan, k);
    } else {
      var m := plan[i];
      var tx := txs(m.version);
      RecordedInPlan(plan, k, m.version);
      if m.version in applied {
        assert i < k;
        ApplyFromMoves(s, plan, i + 1, applied, txs, k);
      } else {
        ApplyOneMoves(s, plan, k, i, tx);
        if Applies(s, m, tx) {
          ApplyFromMoves(ApplyOne(s, m, tx), plan, i + 1, applied, txs, k + 1);
        } else {
          assert Reaches(ApplyOne(s, m, tx), plan, k);
        }
      }
    }
  }

  lemma MigrateMoves(s: State, plan: seq<Migration>, c: Call, k: nat)
    requires StrictlyIncreasing(plan) && At(s, plan, k) && c.MigrateCall?
    ensures var (s', r) := AfterMigrate(s, plan, c);
      && Reaches(s', plan, k)
      && (r.Ok? ==> At(s', plan, |plan|))
      && (k == |plan| ==> Recorded(s') == Recorded(s) && s'.log == s.log)
  {
    var s1 := Created(s);
    assert At(s1, plan, k) && Reaches(s, plan, k) && Reaches(s1, plan, k);
    ApplyFromMoves(s1, plan, 0, Recorded(s).Keys - c.unread, c.txs, k);
  }

  lemma NamesOf(rows: map<int, Applied>, v: int)
    ensures Names(rows - {v}) == Names(rows) - {v}
    ensures IsLast(Names(rows), v) <==> IsLast(rows, v)
    ensures Names(rows) == map[] <==> rows == map[]
  {
    assert forall w :: w in Names(rows) <==> w in rows;
  }

  // ----- what one call does, exactly

  /** The migration at which a Migrate stops, for which the plan's first `k` are recorded: it
      is recorded but was not read, or it is not recorded and its transaction fails. */
  predicate StopsAt(plan: seq<Migration>, k: nat, unread: set<int>, txs: int -> Tx, j: nat)
    requires j < |plan|
  {
    if j < k then plan[j].version in unread else !txs(plan[j].version).fault.NoFault?
  }

  predicate IsFirstStop(plan: seq<Migration>, i: nat, k: nat, unread: set<int>, txs: int -> Tx, j: nat) {
    && i <= j <= |plan|
    && (forall h :: i <= h < j ==> !StopsAt(plan, k, unread, txs, h))
    && (j < |plan| ==> StopsAt(plan, k, unread, txs, j))
  }

  /** How many migrations are recorded after a Migrate that stops at `j`. */
  function LevelAfter(plan: seq<Migration>, k: nat, txs: int -> Tx, j: nat): nat
    requires j <= |plan|
  {
    if j < k then k
    else if j < |plan| && txs(plan[j].version).fault == CommitFails(true) then j + 1
    else j
  }

  /** Rows of `before` stay as they were, and each migration from `k` to `k'` has its row. */
  predicate RowsAdded(before: map<int, Applied>, after: map<int, Applied>, plan: seq<Migration>, k: nat, k': nat, txs: int -> Tx)
    requires k' <= |plan|
  {
    && (forall v :: v in before ==> v in after && after[v] == before[v])
    && (forall h :: k <= h < k' ==>
          var v := plan[h].version; v in after && after[v] == Applied(plan[h].name, txs(v).at))
  }

  lemma {:induction false} FirstStopExists(plan: seq<Migration>, i: nat, k: nat, unread: set<int>, txs: int -> Tx)
    requires i <= |plan|
    ensures exists j: nat :: IsFirstStop(plan, i, k, unread, txs, j)
    decreases |plan| - i
  {
    if i == |plan| || StopsAt(plan, k, unread, txs, i) {
      assert IsFirstStop(plan, i, k, unread, txs, i);
    } else {
      FirstStopExists(plan, i + 1, k, unread, txs);
      var j: nat :| IsFirstStop(plan, i + 1, k, unread, txs, j);
      assert IsFirstStop(plan, i, k, unread, txs, j);
    }
  }

  lemma {:induction false} ApplyFromStops(s: State, plan: seq<Migration>, i: nat, applied: set<int>, unread: set<int>, txs: int -> Tx, k: nat, j: nat)
    requires StrictlyIncreasing(plan) && At(s, plan, k) && i <= k
    requires forall h :: i <= h < |plan| ==> (plan[h].version in applied <==> h < k && plan[h].version !in unread)
    requires IsFirstStop(plan, i, k, unread, txs, j)
    ensures var (s', failed) := ApplyFrom(s, plan, i, applied, txs);
      && failed == (if j < |plan| then Some(plan[j].version) else None)
      && At(s', plan, LevelAfter(plan, k, txs, j))
      && RowsAdded(Recorded(s), Recorded(s'), plan, k, LevelAfter(plan, k, txs, j), txs)
    decreases |plan| - i
  {
    hide At, Level, RowsOf;
    if i == |plan| {
      AtMost(s, plan, k);
    } else {
      var m := plan[i];
      var tx := txs(m.version);
      AtMost(s, plan, k);
      ApplyOneMoves(s, plan, k, i, tx);
      ApplyOneRows(s, plan, k, i, tx);
      if m.version in applied {
        ApplyFromStops(s, plan, i + 1, applied, unread, txs, k, j);
      } else if Applies(s, m, tx) {
        var s1 := ApplyOne(s, m, tx);
        assert i == k;
        StopsOneOn(plan, k, unread, txs, j);
        ApplyFromStops(s1, plan, i + 1, applied, unread, txs, k + 1, j);
      } else {
        assert StopsAt(plan, k, unread, txs, i);
        assert j == i;
      }
    }
  }

  lemma StopsOneOn(plan: seq<Migration>, k: nat, unread: set<int>, txs: int -> Tx, j: nat)
    requires IsFirstStop(plan, k, k, unread, txs, j) && k < |plan| && !StopsAt(plan, k, unread, txs, k)
    ensures IsFirstStop(plan, k + 1, k + 1, unread, txs, j)
  {
    var k' := k + 1;
    forall h: nat | k' <= h < j
      ensures !StopsAt(plan, k', unread, txs, h)
    {
      assert !StopsAt(plan, k, unread, txs, h);
    }
  }

  lemma AtMost(s: State, plan: seq<Migration>, k: nat)
    requires At(s, plan, k)
    ensures k <= |plan|
  {
  }

  /** What the transaction of the next migration, or of a recorded one, does to the rows. */
  lemma {:induction false} ApplyOneRows(s: State, plan: seq<Migration>, k: nat, i: nat, tx: Tx)
    requires StrictlyIncreasing(plan) && At(s, plan, k) && i <= k && i < |plan|
    ensures plan[i].version in Recorded(s) <==> i < k
    ensures i == k && (tx.fault.NoFault? || tx.fault == CommitFails(true)) ==>
      var s' := ApplyOne(s, plan[i], tx);
      && At(s', plan, k + 1)
      && Recorded(s') == Recorded(s)[plan[i].version := Applied(plan[i].name, tx.at)]
    ensures i == k && !(tx.fault.NoFault? || tx.fault == CommitFails(true)) ==> ApplyOne(s, plan[i], tx) == s
  {
    RecordedInPlan(plan, k, plan[i].version);
    assert plan[i].version in Recorded(s) <==> plan[i].version in Names(Recorded(s));
    if i == k {
      RowsGrow(plan, k);
      LevelSnoc(s.log, Up(plan[k].version), plan, k);
    }
  }

  /** From a state with the plan's first `k` migrations recorded, and no failure before the
      first transaction, a Migrate goes exactly as far as its first stop `j`: it succeeds if
      there is none, names the version otherwise, and records each migration it applied
      with its name and the time of its transaction. */
  lemma {:induction false} MigrateGoesToItsFirstStop(s: State, plan: seq<Migration>, c: Call, k: nat, j: nat)
    requires StrictlyIncreasing(plan) && At(s, plan, k)
    requires c.MigrateCall? && !c.createFails && !c.queryFails && !c.loadFails
    requires IsFirstStop(plan, 0, k, c.unread, c.txs, j)
    ensures var (s', r) := AfterMigrate(s, plan, c);
      && r == (if j < |plan| then Err(TransactionFailed(plan[j].version)) else Ok(()))
      && At(s', plan, LevelAfter(plan, k, c.txs, j))
      && RowsAdded(Recorded(s), Recorded(s'), plan, k, LevelAfter(plan, k, c.txs, j), c.txs)
  {
    var s1 := Created(s);
    assert At(s1, plan, k);
    var applied := Recorded(s).Keys - c.unread;
    forall h | 0 <= h < |plan|
      ensures plan[h].version in applied <==> h < k && plan[h].version !in c.unread
    {
      RecordedInPlan(plan, k, plan[h].version);
      assert plan[h].version in Recorded(s) <==> plan[h].version in Names(Recorded(s));
    }
    hide At;
    ApplyFromStops(s1, plan, 0, applied, c.unread, c.txs, k, j);
  }

  /** When a Migrate reports success, and what it reports otherwise. */
  lemma {:induction false} MigrateSucceedsExactlyWhen(s: State, plan: seq<Migration>, c: Call, k: nat)
    requires StrictlyIncreasing(plan) && At(s, plan, k) && c.MigrateCall?
    ensures var (s', r) := AfterMigrate(s, plan, c);
      && (r.Ok? <==>
            && !c.createFails && !c.queryFails && !c.loadFails
            && (forall h :: 0 <= h < k ==> plan[h].version !in c.unread)
            && (forall h :: k <= h < |plan| ==> c.txs(plan[h].version).fault.NoFault?))
      && (r == Err(TableNotReadable) <==> c.createFails || c.queryFails)
      && (r == Err(MigrationsNotLoaded) <==> !c.createFails && !c.queryFails && c.loadFails)
      && (c.createFails || c.queryFails || c.loadFails ==> Recorded(s') == Recorded(s) && s'.log == s.log)
      && (s'.table.Some? <==> s.table.Some? || !c.createFails)
  {
    if !c.createFails && !c.queryFails && !c.loadFails {
      FirstStopExists(plan, 0, k, c.unread, c.txs);
      var j: nat :| IsFirstStop(plan, 0, k, c.unread, c.txs, j);
      MigrateGoesToItsFirstStop(s, plan, c, k, j);
      TableStays(Created(s), plan, 0, Recorded(s).Keys - c.unread, c.txs);
      AtMost(s, plan, k);
      hide At, AfterMigrate;
      NoStopMeans(plan, k, c.unread, c.txs, j);
    }
  }

  lemma NoStopMeans(plan: seq<Migration>, k: nat, unread: set<int>, txs: int -> Tx, j: nat)
    requires IsFirstStop(plan, 0, k, unread, txs, j) && k <= |plan|
    ensures j == |plan| <==>
            && (forall h :: 0 <= h < k ==> plan[h].version !in unread)
            && (forall h :: k <= h < |plan| ==> txs(plan[h].version).fault.NoFault?)
  {
    if j == |plan| {
      forall h: nat | h < |plan|
        ensures if h < k then plan[h].version !in unread else txs(plan[h].version).fault.NoFault?
      {
        assert !StopsAt(plan, k, unread, txs, h);
      }
    }
  }

  lemma {:induction false} TableStays(s: State, plan: seq<Migration>, i: nat, applied: set<int>, txs: int -> Tx)
    requires i <= |plan| && s.table.Some?
    ensures ApplyFrom(s, plan, i, applied, txs).0.table.Some?
    decreases |plan| - i
  {
    if i == |plan| {
    } else {
      TableStays(s, plan, i + 1, applied, txs);
      TableStays(ApplyOne(s, plan[i], txs(plan[i].version)), plan, i + 1, applied, txs);
    }
  }

  /** A rollback takes back exactly the last recorded migration of the plan, if its
      transaction takes effect: it runs its down SQL and deletes its row.  The answer for each
      case. */
  lemma {:induction false} DownTakesBackTheLast(s: State, plan: seq<Migration>, c: Call, k: nat)
    requires StrictlyIncreasing(plan) && At(s, plan, k) && c.DownCall?
    ensures var (s', r) := AfterDown(s, c);
      && (s.table.None? || c.queryFails ==> r == Err(TableNotReadable) && s' == s)
      && (s.table.Some? && !c.queryFails && k == 0 ==> r == Ok(()) && s' == s)
      && (s.table.Some? && !c.queryFails && k > 0 ==>
            var v := plan[k - 1].version;
            if !c.downFound then r == Err(NoDownMigration(v)) && s' == s
            else
              && r == (if c.fault.NoFault? then Ok(()) else Err(TransactionFailed(v)))
              && (if c.fault.NoFault? || c.fault == CommitFails(true) then
                    At(s', plan, k - 1) && s'.log == s.log + [Down(v)] && Recorded(s') == Recorded(s) - {v}
                  else s' == s))
  {
    if k == 0 {
      assert plan[..0] == [];
      NamesOf(Recorded(s), 0);
    } else {
      var v := plan[k - 1].version;
      RowsShrink(plan, k);
      NamesOf(Recorded(s), v);
      LastIsUnique(Recorded(s), LastVersion(Recorded(s)), v);
      LevelSnoc(s.log, Down(v), plan, k);
      hide RowsOf;
    }
  }

  lemma DownMoves(s: State, plan: seq<Migration>, c: Call, k: nat)
    requires StrictlyIncreasing(plan) && At(s, plan, k) && c.DownCall?
    ensures var s' := AfterDown(s, c).0; s' == s || (k > 0 && At(s', plan, k - 1))
  {
    DownTakesBackTheLast(s, plan, c, k);
    hide At, AfterDown;
  }

  // ----- runs

  ghost function Next(s: State, plan: seq<Migration>, c: Call): State {
    if c.MigrateCall? then AfterMigrate(s, plan, c).0 else AfterDown(s, c).0
  }

  /** Any sequence of calls on an initially empty database. */
  ghost function Run(plan: seq<Migration>, calls: seq<Call>): State {
    if calls == [] then State(None, []) else Next(Run(plan, calls[..|calls| - 1]), plan, calls[|calls| - 1])
  }

  /** After any run, whatever failed on the way, the recorded versions are a prefix of the
      plan and the committed SQL leads exactly there. */
  lemma {:induction false} EveryRunRecordsAPrefix(plan: seq<Migration>, calls: seq<Call>)
    requires StrictlyIncreasing(plan)
    ensures exists k: nat :: At(Run(plan, calls), plan, k)
    decreases |calls|
  {
    if calls == [] {
      assert plan[..0] == [];
      assert At(Run(plan, calls), plan, 0);
    } else {
      var front, c := calls[..|calls| - 1], calls[|calls| - 1];
      EveryRunRecordsAPrefix(plan, front);
      var s := Run(plan, front);
      var k: nat :| At(s, plan, k);
      if c.MigrateCall? {
        MigrateMoves(s, plan, c, k);
        assert Reaches(Run(plan, calls), plan, k);
      } else {
        DownMoves(s, plan, c, k);
        var s' := Run(plan, calls);
        assert At(s', plan, k) || (k > 0 && At(s', plan, k - 1));
      }
    }
  }

  /** Up runs of a version since its last rollback. */
  function RunsSinceRollback(log: seq<Change>, v: int): nat {
    if log == [] then 0
    else
      match log[|log| - 1]
      case Up(w) => RunsSinceRollback(log[..|log| - 1], v) + if v == w then 1 else 0
      case Down(w) => if v == w then 0 else RunsSinceRollback(log[..|log| - 1], v)
  }

  lemma {:induction false} LevelCountsRuns(log: seq<Change>, plan: seq<Migration>, k: nat, v: int)
    requires StrictlyIncreasing(plan) && Level(log, plan) == Some(k)
    ensures k <= |plan|
    ensures RunsSinceRollback(log, v) == if exists i :: 0 <= i < k && plan[i].version == v then 1 else 0
    decreases |log|
  {
    if log == [] {
    } else {
      LevelCountsRuns(log[..|log| - 1], plan, Level(log[..|log| - 1], plan).value, v);
    }
  }

  /** A recorded migration has run exactly once since its last rollback, an unrecorded one
      not at all. */
  lemma RecordedRanExactlyOnce(plan: seq<Migration>, calls: seq<Call>, v: int)
    requires StrictlyIncreasing(plan)
    ensures RunsSinceRollback(Run(plan, calls).log, v) == if v in Recorded(Run(plan, calls)) then 1 else 0
  {
    EveryRunRecordsAPrefix(plan, calls);
    var s := Run(plan, calls);
    var k: nat :| At(s, plan, k);
    LevelCountsRuns(s.log, plan, k, v);
    RecordedInPlan(plan, k, v);
    hide Run;
  }

  /** What MigrationStatus shows after any run, when it reads every row: the migrations
      before some point as applied, the rest as pending, each under its own name. */
  lemma StatusSplitsThePlan(plan: seq<Migration>, calls: seq<Call>)
    requires StrictlyIncreasing(plan)
    ensures exists k: nat :: At(Run(plan, calls), plan, k) && forall i :: 0 <= i < |plan| ==>
      var info := InfoOf(Recorded(Run(plan, calls)), plan[i]);
      info.version == plan[i].version && info.name == plan[i].name && (info.appliedAt.Some? <==> i < k)
  {
    EveryRunRecordsAPrefix(plan, calls);
    var rows := Recorded(Run(plan, calls));
    var k: nat :| At(Run(plan, calls), plan, k);
    hide Run;
    forall i | 0 <= i < |plan|
      ensures var info := InfoOf(rows, plan[i]);
        info.version == plan[i].version && info.name == plan[i].name && (info.appliedAt.Some? <==> i < k)
    {
      RecordedInPlan(plan, k, plan[i].version);
      if i < k {
        NameRecorded(plan, k, i);
      }
    }
  }

  lemma {:induction false} NameRecorded(plan: seq<Migration>, k: nat, i: nat)
    requires StrictlyIncreasing(plan) && i < k <= |plan|
    ensures plan[i].version in RowsOf(plan[..k]) && RowsOf(plan[..k])[plan[i].version] == plan[i].name
    decreases k
  {
    RowsGrow(plan, k - 1);
    if i == k - 1 {
    } else {
      NameRecorded(plan, k - 1, i);
    }
  }

  /** After a Migrate that reports success everything is recorded, and another Migrate,
      failing or not, changes neither the records nor what has run. */
  lemma MigrateAfterSuccessDoesNothing(plan: seq<Migration>, calls: seq<Call>, first: Call, second: Call)
    requires StrictlyIncreasing(plan) && first.MigrateCall? && second.MigrateCall?
    requires AfterMigrate(Run(plan, calls), plan, first).1.Ok?
    ensures var s := AfterMigrate(Run(plan, calls), plan, first).0; var s' := AfterMigrate(s, plan, second).0;
      && At(s, plan, |plan|)
      && Recorded(s') == Recorded(s) && s'.log == s.log
  {
    EveryRunRecordsAPrefix(plan, calls);
    var k: nat :| At(Run(plan, calls), plan, k);
    hide Run, At;
    MigrateMoves(Run(plan, calls), plan, first, k);
    MigrateMoves(AfterMigrate(Run(plan, calls), plan, first).0, plan, second, |plan|);
  }

  // ----- what the schema looks like

  /** The schema after a log, for given effects of the up and down SQL. */
  ghost function Schema<S>(log: seq<Change>, up: (int, S) -> S, down: (int, S) -> S, empty: S): S {
    if log == [] then empty
    else
      var before := Schema(log[..|log| - 1], up, down, empty);
      match log[|log| - 1]
      case Up(v) => up(v, before)
      case Down(v) => down(v, before)
  }

  ghost function Built<S>(plan: seq<Migration>, k: nat, up: (int, S) -> S, empty: S): S
    requires k <= |plan|
  {
    if k == 0 then empty else up(plan[k - 1].version, Built(plan, k - 1, up, empty))
  }

  lemma {:induction false} LevelBuilds<S(!new)>(log: seq<Change>, plan: seq<Migration>, k: nat,
                                               up: (int, S) -> S, down: (int, S) -> S, empty: S)
    requires Level(log, plan) == Some(k) && k <= |plan|
    requires forall v, s :: down(v, up(v, s)) == s
    ensures Schema(log, up, down, empty) == Built(plan, k, up, empty)
    decreases |log|
  {
    if log == [] {
    } else {
      LevelBuilds(log[..|log| - 1], plan, Level(log[..|log| - 1], plan).value, up, down, empty);
    }
  }

  /** If every down SQL undoes its up SQL, then after any run the schema is the one built by
      running the recorded migrations, in order, on an empty database. */
  lemma SchemaMatchesRecords<S(!new)>(plan: seq<Migration>, calls: seq<Call>,
                                      up: (int, S) -> S, down: (int, S) -> S, empty: S)
    requires StrictlyIncreasing(plan)
    requires forall v, s :: down(v, up(v, s)) == s
    ensures exists k: nat :: At(Run(plan, calls), plan, k) &&
                        Schema(Run(plan, calls).log, up, down, empty) == Built(plan, k, up, empty)
  {
    EveryRunRecordsAPrefix(plan, calls);
    var k: nat :| At(Run(plan, calls), plan, k);
    LevelBuilds(Run(plan, calls).log, plan, k, up, down, empty);
    hide Run, Level, RowsOf;
  }
}
