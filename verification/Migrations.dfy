/** The migration runner: each pending script and its tracking row in one transaction, in list order.

    `S` is everything in the database but the tracking table. A script maps the whole database, so that it
    may also touch the tracking table; it fails by giving None. */
module Migrations {
  import opened Wrappers

  datatype Database<S> = Database(state: S, applied: seq<string>)

  type Script<!S(!new)> = Database<S> -> Option<Database<S>>

  datatype Migration<!S(!new)> = Migration(name: string, script: Script<S>)

  datatype Point = StateQuery | Begin | RunScript | TrackingInsert | Commit

  /** A run stops at its first failure, so one injected failure covers all: none, the bootstrap of the
      tracking table, or a point of the migration at a list index. */
  datatype Fault = NoFault | BootstrapFails | FailsAt(index: nat, point: Point)

  datatype MigrationError = ExecutionFailed(name: string) | StateQueryFailed

  const BOOTSTRAP := "_annex_migrations_bootstrap"

  /** The transaction of one migration; None when it fails and rolls back. */
  function ApplyOne<S(!new)>(db: Database<S>, m: Migration<S>, fault: Fault, index: nat): Option<Database<S>> {
    if fault == FailsAt(index, Begin) || fault == FailsAt(index, RunScript) then None
    else
      match m.script(db)
      case None => None
      case Some(after) =>
        if fault == FailsAt(index, TrackingInsert) || m.name in after.applied || fault == FailsAt(index, Commit)
        then None
        else Some(after.(applied := after.applied + [m.name]))
  }

  /** The run from list position `index` on, with `count` migrations applied so far. */
  function RunFrom<S(!new)>(
    db: Database<S>, migrations: seq<Migration<S>>, fault: Fault, index: nat, count: nat)
    : (Result<nat, MigrationError>, Database<S>)
    requires index <= |migrations|
    decreases |migrations| - index
  {
    if index == |migrations| then (Ok(count), db)
    else if fault == FailsAt(index, StateQuery) then (Err(StateQueryFailed), db)
    else if migrations[index].name in db.applied then RunFrom(db, migrations, fault, index + 1, count)
    else
      match ApplyOne(db, migrations[index], fault, index)
      case None => (Err(ExecutionFailed(migrations[index].name)), db)
      case Some(after) => RunFrom(after, migrations, fault, index + 1, count + 1)
  }

  function RunSpec<S(!new)>(db: Database<S>, migrations: seq<Migration<S>>, fault: Fault)
    : (Result<nat, MigrationError>, Database<S>)
  {
    if fault == BootstrapFails then (Err(ExecutionFailed(BOOTSTRAP)), db)
    else RunFrom(db, migrations, fault, 0, 0)
  }

  class Connection<S(!new)> {
    var db: Database<S>

    constructor (state: S)
      ensures db == Database(state, [])
    {
      db := Database(state, []);
    }

    method RunMigrationsFromList(migrations: seq<Migration<S>>, fault: Fault) returns (r: Result<nat, MigrationError>)
      modifies this
      ensures (r, db) == RunSpec(old(db), migrations, fault)
    {
      if fault == BootstrapFails {
        return Err(ExecutionFailed(BOOTSTRAP));
      }
      var applied := 0;
      for i := 0 to |migrations|
        invariant RunFrom(db, migrations, fault, i, applied) == RunSpec(old(db), migrations, fault)
      {
        var migration := migrations[i];
        if fault == FailsAt(i, StateQuery) {
          return Err(StateQueryFailed);
        }
        if migration.name in db.applied {
          continue;
        }
        if fault == FailsAt(i, Begin) || fault == FailsAt(i, RunScript) {
          return Err(ExecutionFailed(migration.name));
        }
        var tx := migration.script(db);
        if tx.None? {
          return Err(ExecutionFailed(migration.name));
        }
        if fault == FailsAt(i, TrackingInsert) || migration.name in tx.value.applied {
          return Err(ExecutionFailed(migration.name));
        }
        var tracked := tx.value.(applied := tx.value.applied + [migration.name]);
        if fault == FailsAt(i, Commit) {
          return Err(ExecutionFailed(migration.name));
        }
        db := tracked;
        applied := applied + 1;
      }
      r := Ok(applied);
    }
  }

  // ----- runs over a growing list -----

  /** The script leaves the tracking table alone. */
  ghost predicate LeavesTracking<S(!new)>(m: Migration<S>) {
    forall db :: m.script(db).Some? ==> m.script(db).value.applied == db.applied
  }

  ghost predicate WellFormed<S(!new)>(all: seq<Migration<S>>) {
    && (forall i :: 0 <= i < |all| ==> LeavesTracking(all[i]))
    && (forall i, j :: 0 <= i < j < |all| ==> all[i].name != all[j].name)
  }

  function Names<S(!new)>(all: seq<Migration<S>>): (names: seq<string>)
    ensures |names| == |all|
  {
    seq(|all|, i requires 0 <= i < |all| => all[i].name)
  }

  /** The state when the first n scripts have run one after the other, each on what those before it left and
      with their names tracked; None when one of them fails. */
  function StateAfter<S(!new)>(start: S, all: seq<Migration<S>>, n: nat): Option<S>
    requires n <= |all|
  {
    if n == 0 then Some(start)
    else
      match StateAfter(start, all, n - 1)
      case None => None
      case Some(state) =>
        match all[n - 1].script(Database(state, Names(all[..n - 1])))
        case None => None
        case Some(after) => Some(after.state)
  }

  /** The database is what the scripts of some prefix of the list make, with exactly their names tracked. */
  ghost predicate IsReplay<S(!new)>(start: S, all: seq<Migration<S>>, db: Database<S>) {
    && |db.applied| <= |all|
    && StateAfter(start, all, |db.applied|) == Some(db.state)
    && db.applied == Names(all[..|db.applied|])
  }

  lemma {:induction false} EarlierStates<S(!new)>(start: S, all: seq<Migration<S>>, m: nat, n: nat)
    requires m <= n <= |all| && StateAfter(start, all, n).Some?
    ensures StateAfter(start, all, m).Some?
    decreases n - m
  {
    if m < n {
      EarlierStates(start, all, m, n - 1);
    }
  }

  lemma TrackedExactly<S(!new)>(all: seq<Migration<S>>, n: nat, i: nat)
    requires WellFormed(all) && n <= |all| && i < |all|
    ensures all[i].name in Names(all[..n]) <==> i < n
  {
    var names := Names(all[..n]);
    if i < n {
      assert names[i] == all[i].name;
    }
  }

  /** The fault hits the transaction of the migration at this index. */
  predicate HitsTransaction(fault: Fault, index: nat) {
    fault.FailsAt? && fault.index == index && fault.point != StateQuery
  }

  /** Applying the next migration extends the prefix by one, unless its script or its transaction fails. */
  lemma ApplyExtends<S(!new)>(start: S, all: seq<Migration<S>>, db: Database<S>, fault: Fault)
    requires WellFormed(all) && IsReplay(start, all, db) && |db.applied| < |all|
    ensures var n := |db.applied|;
      var after := ApplyOne(db, all[n], fault, n);
      && (after.Some? ==> IsReplay(start, all, after.value) && |after.value.applied| == n + 1)
      && (after.Some? <==> StateAfter(start, all, n + 1).Some? && !HitsTransaction(fault, n))
  {
    var n := |db.applied|;
    var after := ApplyOne(db, all[n], fault, n);
    assert db == Database(db.state, Names(all[..n]));
    assert LeavesTracking(all[n]);
    TrackedExactly(all, n, n);
    assert Names(all[..n + 1]) == Names(all[..n]) + [all[n].name];
  }

  /** The fault stops a run over list positions `index` to k - 1 that starts with n migrations applied. */
  predicate Strikes(fault: Fault, index: nat, k: nat, n: nat) {
    fault.FailsAt? && index <= fault.index < k && (fault.point == StateQuery || fault.index >= n)
  }

  predicate StateQueryStops(fault: Fault, index: nat, k: nat) {
    fault.FailsAt? && fault.point == StateQuery && index <= fault.index < k
  }

  /** With m applied, `name` is the next migration, and its script or its transaction failed. */
  ghost predicate NextFailed<S(!new)>(
    start: S, all: seq<Migration<S>>, k: nat, name: string, m: nat, fault: Fault)
    requires k <= |all|
  {
    && m < k && name == all[m].name
    && (StateAfter(start, all, m + 1).None? || HitsTransaction(fault, m))
  }

  function Later(m: nat, n: nat): nat {
    if m < n then n else m
  }

  /** What a run over the first `k` migrations does to a database that has some prefix applied. */
  lemma {:induction false} RunFromPrefix<S(!new)>(
    start: S, all: seq<Migration<S>>, k: nat, db: Database<S>, fault: Fault, index: nat, count: nat)
    requires WellFormed(all) && IsReplay(start, all, db)
    requires index <= k <= |all| && index <= |db.applied|
    ensures var (r, after) := RunFrom(db, all[..k], fault, index, count);
      && IsReplay(start, all, after)
      && db.applied <= after.applied
      && (r.Ok? ==> r.value - count == |after.applied| - |db.applied| && |after.applied| >= k)
      && (r.Ok? ==> |after.applied| == Later(k, |db.applied|))
      && (r.Err? && r.error.ExecutionFailed? ==>
            NextFailed(start, all, k, r.error.name, |after.applied|, fault))
    ensures var (r, after) := RunFrom(db, all[..k], fault, index, count);
      && (r.Ok? <==>
            !Strikes(fault, index, k, |db.applied|) && StateAfter(start, all, Later(k, |db.applied|)).Some?)
      && (r == Err(StateQueryFailed) <==>
            StateQueryStops(fault, index, k)
            && StateAfter(start, all, Later(fault.index, |db.applied|)).Some?)
      && (r == Err(StateQueryFailed) ==> |after.applied| == Later(fault.index, |db.applied|))
    decreases k - index
  {
    hide ApplyOne, StateAfter, Names, HitsTransaction;
    var n := |db.applied|;
    IsReplayUnfold(start, all, db);
    if index < k && fault != FailsAt(index, StateQuery) {
      TrackedExactly(all, n, index);
      assert all[..k][index] == all[index];
      if index < n {
        RunFromPrefix(start, all, k, db, fault, index + 1, count);
      } else {
        ApplyExtends(start, all, db, fault);
        Hits(fault, n);
        var after := ApplyOne(db, all[n], fault, n);
        if after.Some? {
          IsReplayUnfold(start, all, after.value);
          assert Names(all[..n]) <= Names(all[..n + 1]) by {
            NamesPrefix(all, n);
          }
          RunFromPrefix(start, all, k, after.value, fault, index + 1, count + 1);
        } else {
          NotPast(start, all, n);
        }
      }
    }
  }

  lemma Hits(fault: Fault, n: nat)
    ensures HitsTransaction(fault, n) <==> fault.FailsAt? && fault.index == n && fault.point != StateQuery
  {}

  /** A script that fails keeps every later state from being reached. */
  lemma NotPast<S(!new)>(start: S, all: seq<Migration<S>>, n: nat)
    requires n < |all|
    ensures StateAfter(start, all, n + 1).None? ==> forall m :: n < m <= |all| ==> StateAfter(start, all, m).None?
  {
    forall m | n < m <= |all| && StateAfter(start, all, m).Some?
      ensures StateAfter(start, all, n + 1).Some?
    {
      EarlierStates(start, all, n + 1, m);
    }
  }

  lemma IsReplayUnfold<S(!new)>(start: S, all: seq<Migration<S>>, db: Database<S>)
    requires IsReplay(start, all, db)
    ensures |db.applied| <= |all| && db.applied == Names(all[..|db.applied|])
    ensures StateAfter(start, all, |db.applied|) == Some(db.state)
  {}

  lemma NamesPrefix<S(!new)>(all: seq<Migration<S>>, n: nat)
    requires n < |all|
    ensures Names(all[..n]) <= Names(all[..n + 1])
  {}

  /** One attempt: how much of the list the program knew, and where it failed. */
  datatype Attempt = Attempt(known: nat, fault: Fault)

  function RunAll<S(!new)>(db: Database<S>, all: seq<Migration<S>>, attempts: seq<Attempt>): Database<S>
    requires forall a :: a in attempts ==> a.known <= |all|
  {
    if attempts == [] then db
    else
      var last := attempts[|attempts| - 1];
      RunSpec(RunAll(db, all, attempts[..|attempts| - 1]), all[..last.known], last.fault).1
  }

  /** Over any attempts with any failures, by programs that know any prefixes of one list: with n names tracked
      the database is exactly what the first n scripts make of the start, one after the other, and the names are
      theirs in order. */
  lemma {:induction false} RunsApplyPrefix<S(!new)>(start: S, all: seq<Migration<S>>, attempts: seq<Attempt>)
    requires WellFormed(all)
    requires forall a :: a in attempts ==> a.known <= |all|
    ensures var db := RunAll(Database(start, []), all, attempts);
      var n := |db.applied|;
      && IsReplay(start, all, db)
      && n <= |all| && StateAfter(start, all, n).Some?
      && db == Database(StateAfter(start, all, n).value, Names(all[..n]))
  {
    if attempts == [] {
      assert Names(all[..0]) == [];
    } else {
      hide StateAfter, RunFrom, Names, IsReplay;
      var n := |attempts| - 1;
      RunsApplyPrefix(start, all, attempts[..n]);
      var before := RunAll(Database(start, []), all, attempts[..n]);
      RunFromPrefix(start, all, attempts[n].known, before, attempts[n].fault, 0, 0);
      IsReplayUnfold(start, all, RunAll(Database(start, []), all, attempts));
    }
  }

  /** When a run over the first k migrations succeeds, from a database with n applied: when the bootstrap does
      not fail, no state query fails, no transaction of a pending migration fails, and every pending script
      gives a result. */
  ghost predicate Succeeds<S(!new)>(start: S, all: seq<Migration<S>>, k: nat, n: nat, fault: Fault)
    requires k <= |all| && n <= |all|
  {
    match fault
    case NoFault => StateAfter(start, all, Later(k, n)).Some?
    case BootstrapFails => false
    case FailsAt(index, point) =>
      && (index >= k || (index < n && point != StateQuery))
      && StateAfter(start, all, Later(k, n)).Some?
  }

  /** One run from any replayed prefix: it succeeds exactly when it should, then reports how many were newly
      applied and leaves nothing to do, so that a repeat changes nothing. */
  lemma SuccessCountsAndRepeats<S(!new)>(
    start: S, all: seq<Migration<S>>, k: nat, db: Database<S>, fault: Fault)
    requires WellFormed(all) && k <= |all| && IsReplay(start, all, db)
    ensures var (r, after) := RunSpec(db, all[..k], fault);
      && IsReplay(start, all, after) && db.applied <= after.applied
      && (r.Ok? <==> Succeeds(start, all, k, |db.applied|, fault))
      && (r.Ok? ==> r.value == |after.applied| - |db.applied|)
      && (r.Ok? ==> forall i :: 0 <= i < k ==> all[i].name in after.applied)
      && (r.Ok? ==> RunSpec(after, all[..k], NoFault) == (Ok(0), after))
  {
    hide StateAfter, RunFrom, Names, IsReplay;
    var (r, after) := RunSpec(db, all[..k], fault);
    if fault != BootstrapFails {
      IsReplayUnfold(start, all, db);
      RunFromPrefix(start, all, k, db, fault, 0, 0);
      if r.Ok? {
        RepeatIsIdle(start, all, k, after);
      }
    }
  }

  lemma RepeatIsIdle<S(!new)>(start: S, all: seq<Migration<S>>, k: nat, db: Database<S>)
    requires WellFormed(all) && IsReplay(start, all, db) && k <= |db.applied| && k <= |all|
    ensures forall i :: 0 <= i < k ==> all[i].name in db.applied
    ensures RunSpec(db, all[..k], NoFault) == (Ok(0), db)
  {
    hide StateAfter, RunFrom, Names, IsReplay;
    IsReplayUnfold(start, all, db);
    forall i | 0 <= i < k
      ensures all[i].name in db.applied
    {
      TrackedExactly(all, |db.applied|, i);
    }
    NothingPending(db, all[..k], 0);
  }

  /** The ways to fail have their own errors: the bootstrap before anything else; a state query, exactly when
      the scripts pending before it succeed; and otherwise the first migration not yet applied, by name, whose
      script or transaction failed. */
  lemma FailuresExactly<S(!new)>(
    start: S, all: seq<Migration<S>>, k: nat, db: Database<S>, fault: Fault)
    requires WellFormed(all) && k <= |all| && IsReplay(start, all, db)
    ensures var (r, after) := RunSpec(db, all[..k], fault);
      && (fault == BootstrapFails ==> (r, after) == (Err(ExecutionFailed("_annex_migrations_bootstrap")), db))
      && (r == Err(StateQueryFailed) <==>
            StateQueryStops(fault, 0, k) && StateAfter(start, all, Later(fault.index, |db.applied|)).Some?)
      && (r == Err(StateQueryFailed) ==> |after.applied| == Later(fault.index, |db.applied|))
      && (r.Err? && r.error.ExecutionFailed? && fault != BootstrapFails ==>
            NextFailed(start, all, k, r.error.name, |after.applied|, fault))
  {
    hide StateAfter, RunFrom, Names, IsReplay, NextFailed;
    if fault != BootstrapFails {
      RunFromPrefix(start, all, k, db, fault, 0, 0);
    }
  }

  lemma {:induction false} NothingPending<S(!new)>(db: Database<S>, migrations: seq<Migration<S>>, index: nat)
    requires index <= |migrations|
    requires forall i :: 0 <= i < |migrations| ==> migrations[i].name in db.applied
    ensures RunFrom(db, migrations, NoFault, index, 0) == (Ok(0), db)
    decreases |migrations| - index
  {
    if index < |migrations| {
      NothingPending(db, migrations, index + 1);
    }
  }

  /** One pending migration, whatever its script does to the database and the tracking table: its result is kept
      whole with the name appended, or, when it fails or tracks its own name, nothing is kept. */
  lemma OneMigration<S(!new)>(db: Database<S>, m: Migration<S>)
    requires m.name !in db.applied
    ensures var after := m.script(db);
      RunSpec(db, [m], NoFault) ==
        if after.None? || m.name in after.value.applied then (Err(ExecutionFailed(m.name)), db)
        else (Ok(1), Database(after.value.state, after.value.applied + [m.name]))
  {
    if m.script(db).Some? && m.name !in m.script(db).value.applied {
      var after := m.script(db).value.(applied := m.script(db).value.applied + [m.name]);
      assert RunFrom(after, [m], NoFault, 1, 1) == (Ok(1), after);
    }
  }

  // ----- a script that records its own name -----

  ghost predicate RecordsItself<S(!new)>(m: Migration<S>) {
    forall db :: m.script(db).Some? ==> m.name in m.script(db).value.applied
  }

  /** Applying `m` never makes `name` tracked. */
  ghost predicate Spares<S(!new)>(m: Migration<S>, name: string) {
    && m.name != name
    && forall db: Database<S> :: name !in db.applied && m.script(db).Some? ==> name !in m.script(db).value.applied
  }

  lemma {:induction false} SparedStaysUntracked<S(!new)>(
    db: Database<S>, migrations: seq<Migration<S>>, name: string, fault: Fault, index: nat, count: nat)
    requires index <= |migrations| && name !in db.applied
    requires forall i :: 0 <= i < |migrations| ==> Spares(migrations[i], name)
    ensures name !in RunFrom(db, migrations, fault, index, count).1.applied
    decreases |migrations| - index
  {
    if index < |migrations| {
      var after := ApplyOne(db, migrations[index], fault, index);
      assert Spares(migrations[index], name);
      SparedStaysUntracked(db, migrations, name, fault, index + 1, count);
      if after.Some? {
        SparedStaysUntracked(after.value, migrations, name, fault, index + 1, count + 1);
      }
    }
  }

  /** A run that reaches a pending self-recording script at position `p` ends there, with the database exactly
      as the scripts before it left it. */
  lemma {:induction false} StopsBefore<S(!new)>(
    db: Database<S>, migrations: seq<Migration<S>>, p: nat, fault: Fault, index: nat, count: nat)
    requires index <= p < |migrations| && migrations[p].name !in db.applied
    requires RecordsItself(migrations[p])
    requires forall i :: 0 <= i < p ==> Spares(migrations[i], migrations[p].name)
    ensures var (before, after) := RunFrom(db, migrations[..p], fault, index, count);
      RunFrom(db, migrations, fault, index, count) ==
        (if before.Err? then before
         else if fault == FailsAt(p, StateQuery) then Err(StateQueryFailed)
         else Err(ExecutionFailed(migrations[p].name)), after)
    decreases p - index
  {
    if index < p {
      var after := ApplyOne(db, migrations[index], fault, index);
      assert Spares(migrations[index], migrations[p].name);
      StopsBefore(db, migrations, p, fault, index + 1, count);
      if after.Some? {
        StopsBefore(after.value, migrations, p, fault, index + 1, count + 1);
      }
    }
  }

  /** One run that knows the script fails: at the script itself, or where a run of only the scripts before it
      fails. The database is what that shorter run leaves. */
  ghost predicate NeverPasses<S(!new)>(db: Database<S>, all: seq<Migration<S>>, p: nat, known: nat, fault: Fault)
    requires p < known <= |all|
  {
    var (r, after) := RunSpec(db, all[..known], fault);
    var (before, left) := RunSpec(db, all[..p], fault);
    && after == left
    && r.Err?
    && r == if before.Err? then before
            else if fault == FailsAt(p, StateQuery) then Err(StateQueryFailed)
            else Err(ExecutionFailed(all[p].name))
  }

  lemma KnownNeverPasses<S(!new)>(db: Database<S>, all: seq<Migration<S>>, p: nat, known: nat, fault: Fault)
    requires p < known <= |all| && all[p].name !in db.applied && RecordsItself(all[p])
    requires forall i :: 0 <= i < p ==> Spares(all[i], all[p].name)
    ensures NeverPasses(db, all, p, known, fault)
  {
    hide Spares, RecordsItself;
    if fault != BootstrapFails {
      assert all[..known][..p] == all[..p];
      StopsBefore(db, all[..known], p, fault, 0, 0);
    }
  }

  lemma RunLeavesUntracked<S(!new)>(db: Database<S>, all: seq<Migration<S>>, p: nat, known: nat, fault: Fault)
    requires p < |all| && known <= |all| && all[p].name !in db.applied && RecordsItself(all[p])
    requires forall i :: 0 <= i < p ==> Spares(all[i], all[p].name)
    ensures all[p].name !in RunSpec(db, all[..known], fault).1.applied
  {
    hide Spares, RecordsItself;
    var first := if known <= p then known else p;
    SparedStaysUntracked(db, all[..first], all[p].name, fault, 0, 0);
    if p < known {
      KnownNeverPasses(db, all, p, known, fault);
    }
  }

  /** A script that records its own name makes the tracking insert conflict. Wherever it stands in the list,
      after any attempts with any failures: its name is not tracked, and every further run that knows it fails
      and keeps nothing of it. */
  lemma {:induction false} SelfTrackingAlwaysFails<S(!new)>(
    start: Database<S>, all: seq<Migration<S>>, p: nat, attempts: seq<Attempt>)
    requires p < |all| && all[p].name !in start.applied && RecordsItself(all[p])
    requires forall i :: 0 <= i < p ==> Spares(all[i], all[p].name)
    requires forall a :: a in attempts ==> a.known <= |all|
    ensures all[p].name !in RunAll(start, all, attempts).applied
    ensures forall known: nat, fault: Fault :: p < known <= |all| ==>
      NeverPasses(RunAll(start, all, attempts), all, p, known, fault)
  {
    hide Spares, RecordsItself, NeverPasses, RunSpec;
    if attempts != [] {
      var n := |attempts| - 1;
      SelfTrackingAlwaysFails(start, all, p, attempts[..n]);
      RunLeavesUntracked(RunAll(start, all, attempts[..n]), all, p, attempts[n].known, attempts[n].fault);
    }
    forall known: nat, fault: Fault | p < known <= |all|
      ensures NeverPasses(RunAll(start, all, attempts), all, p, known, fault)
    {
      KnownNeverPasses(RunAll(start, all, attempts), all, p, known, fault);
    }
  }
}
