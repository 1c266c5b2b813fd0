/** The Migrator itself: registration, ordering and the loop over groups, run against a
    database server that may fail any call. */
module MigratorRunner {
  import opened Wrappers
  import opened ConcurrentMigrations
  import opened Errors
  import opened MigrationOrder
  import opened Migrations
  import Transactions

  datatype MigrateError =
    | GroupRegistered
    | CycleDetected
    | MissingGroups(groups: set<Group>)
    | CallFailed(e: Error)    // BeginTx, a statement or Commit, or the context's error

  class Server {
    var db: DbState

    constructor ()
      ensures db == EMPTY_DB
    {
      db := EMPTY_DB;
    }
  }

  /** The error that the server answers each call of a transaction with, if any, counted
      from the first. */
  type Answers = nat -> Option<Error>

  predicate NoError(answers: Answers, from: nat, to: nat) {
    forall k :: from <= k < to ==> answers(k).None?
  }

  /** The first error among n calls. */
  function FirstError(answers: Answers, from: nat, n: nat): (first: Option<Error>)
    ensures first.None? <==> NoError(answers, from, from + n)
    decreases n
  {
    if n == 0 then None
    else if answers(from).Some? then answers(from)
    else FirstError(answers, from + 1, n - 1)
  }

  lemma {:induction false} FirstErrorSplits(answers: Answers, from: nat, a: nat, b: nat)
    ensures var first := FirstError(answers, from, a);
            FirstError(answers, from, a + b) == if first.Some? then first else FirstError(answers, from + a, b)
    decreases a
  {
    if a > 0 { FirstErrorSplits(answers, from + 1, a - 1, b); }
  }

  // ---------- how many calls a run makes ----------

  /** The version is read; then, if statements are missing, they are executed and the
      version is set. */
  function GroupCalls(db: DbState, g: Group, stmts: seq<Stmt>): nat {
    var next := LastVersion(db, g) + 1;
    if |stmts| > next then 1 + (|stmts| - next) + 1 else 1
  }

  function OrderCalls(db: DbState, order: seq<Group>, lists: map<Group, seq<Stmt>>): nat
    requires forall g :: g in order ==> g in lists
  {
    if order == [] then 0
    else
      var front, g := order[..|order| - 1], order[|order| - 1];
      OrderCalls(db, front, lists) + GroupCalls(RunGroups(db, front, lists), g, lists[g])
  }

  /** The lock, the migrator's own statements, the groups. */
  function BodyCalls(db: DbState, order: seq<Group>, lists: map<Group, seq<Stmt>>): nat
    requires forall g :: g in order ==> g in lists
  {
    1 + ROOT_STATEMENTS + OrderCalls(db, order, lists)
  }

  /** The first error of a pass over g: of the query, the statements or the update. */
  lemma PassError(answers: Answers, from: nat, db: DbState, g: Group, stmts: seq<Stmt>)
    ensures var missing := |stmts| - (LastVersion(db, g) + 1);
            FirstError(answers, from, GroupCalls(db, g, stmts))
            == if answers(from).Some? then answers(from)
               else if missing <= 0 then None
               else if FirstError(answers, from + 1, missing).Some? then FirstError(answers, from + 1, missing)
               else answers(from + 1 + missing)
  {
    var missing := |stmts| - (LastVersion(db, g) + 1);
    if missing > 0 {
      FirstErrorSplits(answers, from + 1, missing, 1);
      assert FirstError(answers, from + 1 + missing, 1) == answers(from + 1 + missing);
    }
  }

  // ---------- the transaction ----------

  /** The transaction of one attempt. */
  class Transaction {
    var view: DbState
    var calls: nat
    const answers: Answers

    constructor (db: DbState, answers: Answers)
      ensures view == db && calls == 0 && this.answers == answers
    {
      view, calls, this.answers := db, 0, answers;
    }

    /** Any call that leaves log and versions alone. */
    method Call() returns (err: Option<Error>)
      modifies this
      ensures err == answers(old(calls)) && calls == old(calls) + 1 && view == old(view)
    {
      err := answers(calls);
      calls := calls + 1;
    }

    method ExecMigration(e: Entry) returns (err: Option<Error>)
      modifies this
      ensures err == answers(old(calls)) && calls == old(calls) + 1
      ensures err.None? ==> view == old(view).(log := old(view).log + [e])
    {
      err := Call();
      if err.None? {
        view := view.(log := view.log + [e]);
      }
    }
  }

  method GroupLastVersion(tx: Transaction, g: Group) returns (r: Result<int, Error>)
    modifies tx
    ensures tx.view == old(tx.view) && tx.calls == old(tx.calls) + 1
    ensures r == match tx.answers(old(tx.calls)) case None => Ok(LastVersion(tx.view, g)) case Some(e) => Err(e)
  {
    var err := tx.Call();
    if err.Some? { return Err(err.value); }
    r := Ok(if g in tx.view.versions then tx.view.versions[g] else -1);
  }

  method SetGroupLastVersion(tx: Transaction, g: Group, version: nat) returns (err: Option<Error>)
    modifies tx
    ensures err == tx.answers(old(tx.calls)) && tx.calls == old(tx.calls) + 1
    ensures err.None? ==> tx.view == old(tx.view).(versions := old(tx.view).versions[g := version])
  {
    err := tx.Call();
    if err.None? {
      tx.view := tx.view.(versions := tx.view.versions[g := version]);
    }
  }

  /** Executes the statements of g from an index on. */
  method ApplyMigrations(tx: Transaction, g: Group, stmts: seq<Stmt>, first: nat) returns (err: Option<Error>)
    requires first <= |stmts|
    modifies tx
    ensures err == FirstError(tx.answers, old(tx.calls), |stmts| - first)
    ensures err.None? ==>
              tx.calls == old(tx.calls) + (|stmts| - first)
              && tx.view == old(tx.view).(log := old(tx.view).log + Entries(g, stmts, first))
  {
    var i := first;
    assert tx.view.log + [] == tx.view.log;
    while i < |stmts|
      invariant first <= i <= |stmts| && tx.calls == old(tx.calls) + (i - first)
      invariant FirstError(tx.answers, old(tx.calls), |stmts| - first)
             == FirstError(tx.answers, tx.calls, |stmts| - i)
      invariant tx.view == old(tx.view).(log := old(tx.view).log + Entries(g, stmts, first)[..i - first])
    {
      err := tx.ExecMigration(Entry(g, i, stmts[i]));
      if err.Some? { return; }
      i := i + 1;
    }
    err := None;
  }

  // ---------- one attempt, and the retries ----------

  /** What the server and the context do in one attempt. */
  datatype Trial = Trial(answers: Answers, rollback: Option<Error>, cancelled: bool)

  /** The error of an attempt: the first one answered; an error inside the transaction is
      joined with that of the rollback. */
  function TrialError(db: DbState, r: Run, t: Trial): Option<Error>
    requires forall g :: g in r.order ==> g in r.lists
  {
    var n := BodyCalls(db, r.order, r.lists);
    if t.answers(0).Some? then t.answers(0)
    else match FirstError(t.answers, 1, n)
         case Some(e) => Some(Join(e, t.rollback))
         case None => t.answers(1 + n)
  }

  predicate WantsRetry(retry: bool, db: DbState, r: Run, trials: nat -> Trial, n: nat)
    requires forall g :: g in r.order ==> g in r.lists
  {
    retry && n + 1 < Transactions.MAX_ATTEMPTS
    && var e := TrialError(db, r, trials(n)); e.Some? && IsDeadlock(e.value)
  }

  predicate Retries(retry: bool, db: DbState, r: Run, trials: nat -> Trial, n: nat)
    requires forall g :: g in r.order ==> g in r.lists
  {
    WantsRetry(retry, db, r, trials, n) && !trials(n).cancelled
  }

  /** Every attempt but the last is retried. */
  ghost predicate StopsAfter(retry: bool, db: DbState, r: Run, trials: nat -> Trial, attempts: nat)
    requires forall g :: g in r.order ==> g in r.lists
  {
    && attempts >= 1
    && (forall i :: 0 <= i < attempts - 1 ==> Retries(retry, db, r, trials, i))
    && !Retries(retry, db, r, trials, attempts - 1)
  }

  function LastError(retry: bool, db: DbState, r: Run, trials: nat -> Trial, attempts: nat): Option<Error>
    requires forall g :: g in r.order ==> g in r.lists
    requires attempts >= 1
  {
    if WantsRetry(retry, db, r, trials, attempts - 1) then Some(Transactions.ERR_CONTEXT_DONE)
    else TrialError(db, r, trials(attempts - 1))
  }

  class Migrator {
    var groupMigs: map<Group, seq<Stmt>>
    var groupDeps: Deps

    predicate Valid() reads this {
      groupMigs.Keys == groupDeps.Keys
    }

    constructor ()
      ensures Valid() && groupMigs == map[] && groupDeps == map[]
    {
      groupMigs, groupDeps := map[], map[];
    }

    method Register(group: Group, migrations: seq<Stmt>, after: seq<Group>) returns (err: Option<MigrateError>)
      requires Valid()
      modifies this
      ensures Valid()
      ensures group in old(groupMigs) ==>
                err == Some(GroupRegistered) && groupMigs == old(groupMigs) && groupDeps == old(groupDeps)
      ensures group !in old(groupMigs) ==>
                err == None && groupMigs == old(groupMigs)[group := migrations]
                && groupDeps == old(groupDeps)[group := Elements(after)]
    {
      if group in groupMigs { return Some(GroupRegistered); }
      groupMigs := groupMigs[group := migrations];
      var deps: set<Group> := {};    // groupDeps has no entry for an unregistered group
      for i := 0 to |after|
        invariant deps == set j | 0 <= j < i :: after[j]
      {
        deps := deps + {after[i]};
      }
      groupDeps := groupDeps[group := deps];
      err := None;
    }

    /** A cycle is reported in preference to a missing group. */
    method OrderMigrationGroups() returns (r: Result<seq<Group>, MigrateError>)
      requires Valid()
      ensures r.Ok? <==> !Cyclic(groupDeps) && Unregistered(groupDeps) == {}
      ensures r.Ok? ==> IsLinearExtension(groupDeps, r.value)
      ensures r.Err? ==> r.error == if Cyclic(groupDeps) then CycleDetected else MissingGroups(Unregistered(groupDeps))
    {
      var allGroups, todo := {}, groupDeps.Keys;
      while todo != {}
        invariant todo <= groupDeps.Keys
        invariant allGroups
               == (groupDeps.Keys - todo) + set t, d | t in groupDeps && t !in todo && d in groupDeps[t] :: d
      {
        var t :| t in todo;
        allGroups, todo := allGroups + {t} + groupDeps[t], todo - {t};
      }
      var order, ok := Toposort(groupDeps);
      if !ok { return Err(CycleDetected); }
      var missing := allGroups - groupDeps.Keys;
      assert missing == Unregistered(groupDeps);
      if missing != {} { return Err(MissingGroups(missing)); }
      r := Ok(order);
    }

    /** One pass of the loop over groups. */
    method MigrateGroup(tx: Transaction, group: Group) returns (err: Option<Error>)
      requires group in groupMigs
      modifies tx
      ensures var n := GroupCalls(old(tx.view), group, groupMigs[group]);
              err == FirstError(tx.answers, old(tx.calls), n) && (err.None? ==> tx.calls == old(tx.calls) + n)
      ensures err.None? ==> tx.view == RunGroup(old(tx.view), group, groupMigs[group])
    {
      PassError(tx.answers, tx.calls, tx.view, group, groupMigs[group]);
      var last := GroupLastVersion(tx, group);
      if last.Err? { return Some(last.error); }
      var stmts := groupMigs[group];
      if |stmts| > last.value + 1 {
        err := ApplyMigrations(tx, group, stmts, last.value + 1);
        if err.Some? { return; }
        err := SetGroupLastVersion(tx, group, |stmts| - 1);
        if err.Some? { return; }
      }
      err := None;
    }

    /** What Migrate runs inside its transaction. */
    method MigrateGroups(tx: Transaction, order: seq<Group>) returns (err: Option<Error>)
      requires forall g :: g in order ==> g in groupMigs
      modifies tx
      ensures var n := BodyCalls(old(tx.view), order, groupMigs);
              err == FirstError(tx.answers, old(tx.calls), n) && (err.None? ==> tx.calls == old(tx.calls) + n)
      ensures err.None? ==> tx.view == RunGroups(old(tx.view), order, groupMigs)
    {
      ghost var from, answers, db := tx.calls, tx.answers, tx.view;
      FirstErrorSplits(answers, from, 1 + ROOT_STATEMENTS, OrderCalls(db, order, groupMigs));
      err := tx.Call();    // the advisory lock
      if err.Some? { return; }
      for i := 0 to ROOT_STATEMENTS
        invariant tx.view == db && tx.calls == from + 1 + i
        invariant FirstError(answers, from, 1 + ROOT_STATEMENTS) == FirstError(answers, tx.calls, ROOT_STATEMENTS - i)
      {
        err := tx.Call();
        if err.Some? { return; }
      }
      err := MigrateOrder(tx, order);
    }

    /** The loop over groups. */
    method MigrateOrder(tx: Transaction, order: seq<Group>) returns (err: Option<Error>)
      requires forall g :: g in order ==> g in groupMigs
      modifies tx
      ensures var n := OrderCalls(old(tx.view), order, groupMigs);
              err == FirstError(tx.answers, old(tx.calls), n) && (err.None? ==> tx.calls == old(tx.calls) + n)
      ensures err.None? ==> tx.view == RunGroups(old(tx.view), order, groupMigs)
    {
      ghost var from, answers, db := tx.calls, tx.answers, tx.view;
      ghost var done, total := 0, OrderCalls(db, order, groupMigs);
      for n := 0 to |order|
        invariant tx.view == RunGroups(db, order[..n], groupMigs)
        invariant tx.calls == from + done && done == OrderCalls(db, order[..n], groupMigs)
        invariant NoError(answers, from, tx.calls)
      {
        ghost var at, calls := tx.calls, GroupCalls(tx.view, order[n], groupMigs[order[n]]);
        CallsOneMore(db, order, groupMigs, n);
        RunGroupsStep(db, order, groupMigs, n);
        CallsGrow(db, order, groupMigs, n + 1);
        err := MigrateGroup(tx, order[n]);
        if err.Some? {
          ErrorOfWhole(answers, from, at, calls, total);
          return;
        }
        done := done + calls;
      }
      assert order[..|order|] == order;
      err := None;
    }

    /** One attempt, as pgdb makes it: it either installs exactly what a serial run does, or
        nothing. */
    method Attempt(server: Server, t: Trial, order: seq<Group>) returns (err: Option<Error>)
      requires forall g :: g in order ==> g in groupMigs
      modifies server
      ensures err == TrialError(old(server.db), Run(groupDeps, groupMigs, order), t)
      ensures server.db == if err.None? then RunGroups(old(server.db), order, groupMigs) else old(server.db)
    {
      var tx := new Transaction(server.db, t.answers);
      err := tx.Call();       // BeginTx
      if err.Some? { return; }
      err := MigrateGroups(tx, order);
      if err.Some? { return Some(Join(err.value, t.rollback)); }
      err := tx.Call();       // Commit
      if err.None? {
        server.db := tx.view;
      }
    }

    /** pgdb.Tx around the attempts. */
    method Tx(server: Server, retry: bool, trials: nat -> Trial, order: seq<Group>)
      returns (err: Option<Error>, ghost attempts: nat)
      requires forall g :: g in order ==> g in groupMigs
      modifies server
      ensures var run := Run(groupDeps, groupMigs, order);
              StopsAfter(retry, old(server.db), run, trials, attempts)
              && err == LastError(retry, old(server.db), run, trials, attempts)
      ensures server.db == if err.None? then RunGroups(old(server.db), order, groupMigs) else old(server.db)
    {
      ghost var db, run := server.db, Run(groupDeps, groupMigs, order);
      var n := 0;
      while true
        invariant 0 <= n < Transactions.MAX_ATTEMPTS && server.db == db
        invariant forall i :: 0 <= i < n ==> Retries(retry, db, run, trials, i)
        decreases Transactions.MAX_ATTEMPTS - n
      {
        n := n + 1;
        attempts := n;
        var t := trials(n - 1);
        err := Attempt(server, t, order);
        if err.Some? && retry && IsDeadlock(err.value) && n < Transactions.MAX_ATTEMPTS {
          if t.cancelled { return Some(Transactions.ERR_CONTEXT_DONE), attempts; }
          continue;
        }
        return;
      }
    }

    /** Migrate, retrying deadlocks if the options in its context ask for it. It either
        installs exactly what one serial run in some dependency order does, or nothing. */
    method Migrate(server: Server, retry: bool, trials: nat -> Trial)
      returns (err: Option<MigrateError>, ghost run: Run, ghost attempts: nat)
      requires Valid()
      modifies server
      ensures run.deps == groupDeps && run.lists == groupMigs
      ensures Cyclic(groupDeps) ==> err == Some(CycleDetected)
      ensures !Cyclic(groupDeps) && Unregistered(groupDeps) != {} ==>
                err == Some(MissingGroups(Unregistered(groupDeps)))
      ensures !Cyclic(groupDeps) && Unregistered(groupDeps) == {} ==>
                ValidRun(run) && (forall g :: g in run.order ==> g in run.lists)
                && StopsAfter(retry, old(server.db), run, trials, attempts)
                && err == match LastError(retry, old(server.db), run, trials, attempts)
                          case None => None case Some(e) => Some(CallFailed(e))
      ensures err.None? ==> ValidRun(run) && server.db == RunAll(old(server.db), run)
      ensures err.Some? ==> server.db == old(server.db)
    {
      run, attempts := Run(groupDeps, groupMigs, []), 0;
      var ordered := OrderMigrationGroups();
      if ordered.Err? { return Some(ordered.error), run, 0; }
      run := Run(groupDeps, groupMigs, ordered.value);
      OrderIsRegistered(run);
      var e;
      e, attempts := Tx(server, retry, trials, ordered.value);
      err := match e case None => None case Some(failure) => Some(CallFailed(failure));
    }
  }

  lemma CallsOneMore(db: DbState, order: seq<Group>, lists: map<Group, seq<Stmt>>, n: nat)
    requires forall g :: g in order ==> g in lists
    requires n < |order|
    ensures OrderCalls(db, order[..n + 1], lists)
         == OrderCalls(db, order[..n], lists)
            + GroupCalls(RunGroups(db, order[..n], lists), order[n], lists[order[n]])
  {
    assert order[..n + 1][..n] == order[..n];
  }

  /** After calls without error, an error of the next ones is the first one of all. */
  lemma ErrorOfWhole(answers: Answers, from: nat, at: nat, calls: nat, total: nat)
    requires from <= at && NoError(answers, from, at) && at + calls <= from + total
    requires FirstError(answers, at, calls).Some?
    ensures FirstError(answers, from, total) == FirstError(answers, at, calls)
  {
    FirstErrorSplits(answers, from, at - from, total - (at - from));
    FirstErrorSplits(answers, at, calls, total - (at - from) - calls);
  }

  lemma {:induction false} CallsGrow(db: DbState, order: seq<Group>, lists: map<Group, seq<Stmt>>, n: nat)
    requires forall g :: g in order ==> g in lists
    requires n <= |order|
    ensures OrderCalls(db, order[..n], lists) <= OrderCalls(db, order, lists)
    decreases |order| - n
  {
    if n == |order| {
      assert order[..n] == order;
    } else {
      CallsOneMore(db, order, lists, n);
      CallsGrow(db, order, lists, n + 1);
    }
  }

  // ---------- which calls are made, and which errors are retried ----------

  lemma {:induction false} VersionUntouched(db: DbState, order: seq<Group>, lists: map<Group, seq<Stmt>>, g: Group)
    requires g !in order && forall h :: h in order ==> h in lists
    ensures LastVersion(RunGroups(db, order, lists), g) == LastVersion(db, g)
  {
    if order != [] {
      VersionUntouched(db, order[..|order| - 1], lists, g);
    }
  }

  /** The groups of which statements are missing. */
  function Behind(db: DbState, order: seq<Group>, lists: map<Group, seq<Stmt>>): set<Group>
    requires forall g :: g in order ==> g in lists
  {
    set g | g in order && LastVersion(db, g) + 1 < |lists[g]|
  }

  lemma BehindOneMore(db: DbState, front: seq<Group>, g: Group, lists: map<Group, seq<Stmt>>)
    requires g !in front && g in lists && forall h :: h in front ==> h in lists
    ensures |Behind(db, front + [g], lists)|
         == |Behind(db, front, lists)| + if LastVersion(db, g) + 1 < |lists[g]| then 1 else 0
  {
    var before := Behind(db, front, lists);
    assert Behind(db, front + [g], lists) == before + if LastVersion(db, g) + 1 < |lists[g]| then {g} else {};
  }

  /** The loop reads the version of every group, executes what it adds to the log, and sets
      the version of the groups of which statements were missing. */
  lemma {:induction false} OrderCallsExactly(db: DbState, order: seq<Group>, lists: map<Group, seq<Stmt>>)
    requires NoDuplicates(order) && forall g :: g in order ==> g in lists
    ensures OrderCalls(db, order, lists)
         == |order| + (|RunGroups(db, order, lists).log| - |db.log|) + |Behind(db, order, lists)|
  {
    if order != [] {
      var front, g := order[..|order| - 1], order[|order| - 1];
      assert order == front + [g];
      OrderCallsExactly(db, front, lists);
      VersionUntouched(db, front, lists, g);
      BehindOneMore(db, front, g, lists);
    }
  }

  /** The calls inside the transaction of an attempt that fails at none: the lock, the
      migrator's own statement, and those of the loop. */
  lemma BodyCallsExactly(db: DbState, order: seq<Group>, lists: map<Group, seq<Stmt>>)
    requires NoDuplicates(order) && forall g :: g in order ==> g in lists
    ensures BodyCalls(db, order, lists)
         == 2 + |order| + (|RunGroups(db, order, lists).log| - |db.log|) + |Behind(db, order, lists)|
  {
    OrderCallsExactly(db, order, lists);
  }

  /** Call k of an attempt is the first one that the server answers with an error. */
  predicate FirstFails(db: DbState, r: Run, t: Trial, k: nat, e: Error)
    requires forall g :: g in r.order ==> g in r.lists
  {
    k <= BodyCalls(db, r.order, r.lists) + 1 && t.answers(k) == Some(e) && NoError(t.answers, 0, k)
  }

  lemma {:induction false} FirstErrorIs(answers: Answers, from: nat, n: nat, k: nat)
    requires from <= k < from + n && answers(k).Some? && NoError(answers, from, k)
    ensures FirstError(answers, from, n) == answers(k)
    decreases n
  {
    if k > from { FirstErrorIs(answers, from + 1, n - 1, k); }
  }

  /** An attempt succeeds exactly when BeginTx, every call of the transaction and the commit
      do; otherwise its error is that of the first to fail, joined with the rollback's when
      it is one inside the transaction. */
  lemma TrialErrorExactly(db: DbState, r: Run, t: Trial, k: nat, e: Error)
    requires forall g :: g in r.order ==> g in r.lists
    ensures var n := BodyCalls(db, r.order, r.lists);
            TrialError(db, r, t).None? <==> NoError(t.answers, 0, n + 2)
    ensures var n := BodyCalls(db, r.order, r.lists);
            FirstFails(db, r, t, k, e) ==>
              TrialError(db, r, t) == Some(if 1 <= k <= n then Joined(e, t.rollback) else e)
  {
    var n := BodyCalls(db, r.order, r.lists);
    if FirstFails(db, r, t, k, e) && 1 <= k <= n { FirstErrorIs(t.answers, 1, n, k); }
    assert NoError(t.answers, 0, n + 2)
      <==> t.answers(0).None? && NoError(t.answers, 1, 1 + n) && t.answers(1 + n).None?;
  }

  /** Whichever call the server answers first with an error of SQLSTATE c, the attempt is
      made again exactly for a serialization failure (40001) or a deadlock (40P01), if that
      was asked for, attempts are left and the context is not done. */
  lemma MigrationIsRetried(retry: bool, db: DbState, r: Run, trials: nat -> Trial, n: nat, k: nat, c: string)
    requires forall g :: g in r.order ==> g in r.lists
    requires FirstFails(db, r, trials(n), k, Sql(c))
    ensures Retries(retry, db, r, trials, n)
        <==> (c == "40001" || c == "40P01") && retry && n + 1 < 4 && !trials(n).cancelled
    ensures StopsAfter(retry, db, r, trials, n + 1) ==>
              LastError(retry, db, r, trials, n + 1)
              == if (c == "40001" || c == "40P01") && retry && n + 1 < 4 then Some(Plain("context done"))
                 else TrialError(db, r, trials(n))
  {
    TrialErrorExactly(db, r, trials(n), k, Sql(c));
    assert FirstSql(Sql(c)) == Some(c);
    assert SQLState(TrialError(db, r, trials(n)).value) == c;
  }

  /** Migrate makes at most 4 attempts, one without the option to retry; and it succeeds
      exactly when one of these meets no error, all before it being deadlocks. */
  lemma MigrateIsBounded(retry: bool, db: DbState, r: Run, trials: nat -> Trial, attempts: nat)
    requires forall g :: g in r.order ==> g in r.lists
    requires StopsAfter(retry, db, r, trials, attempts)
    ensures attempts <= if retry then 4 else 1
    ensures LastError(retry, db, r, trials, attempts).None?
        <==> exists n :: 0 <= n < 4 && TrialError(db, r, trials(n)).None?
                         && forall i :: 0 <= i < n ==> Retries(retry, db, r, trials, i)
  {
    if attempts > 1 { assert Retries(retry, db, r, trials, attempts - 2); }
    if LastError(retry, db, r, trials, attempts).None? {
      assert TrialError(db, r, trials(attempts - 1)).None?;
    }
    if n :| 0 <= n < 4 && TrialError(db, r, trials(n)).None?
            && forall i :: 0 <= i < n ==> Retries(retry, db, r, trials, i) {
      assert !Retries(retry, db, r, trials, n) && n == attempts - 1;
    }
  }
}
