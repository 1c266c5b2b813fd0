/** Statements are applied only after those of every group they depend on, directly or
    not. */
module MigrationDependencies {
  import opened MigrationOrder
  import opened Migrations

  /** Statement i of g is in the log. */
  ghost predicate Logged(log: seq<Entry>, g: Group, i: nat) {
    exists stmt :: Entry(g, i, stmt) in log
  }

  /** Statements 0..n of g are in the log. */
  ghost predicate Contains(log: seq<Entry>, g: Group, n: nat) {
    forall i :: 0 <= i < n ==> Logged(log, g, i)
  }

  /** These very statements of g are in the log, each at its index. */
  ghost predicate LoggedText(log: seq<Entry>, g: Group, stmts: seq<Stmt>) {
    forall i :: 0 <= i < |stmts| ==> Entry(g, i, stmts[i]) in log
  }

  /** Everything g depends on in run r, directly or not, is in the log: something at each
      index that r registers and, if the lists that the earlier runs h and r registered
      only grew at their end, the very statements that r registers. */
  ghost predicate DependenciesApplied(h: seq<Run>, r: Run, g: Group, log: seq<Entry>) {
    forall d :: DependsOn(r.deps, g, d) ==>
      d in r.lists && Contains(log, d, |r.lists[d]|)
      && (PrefixComparable(h + [r], d) ==> LoggedText(log, d, r.lists[d]))
  }

  predicate Comparable(a: seq<Stmt>, b: seq<Stmt>) {
    a <= b || b <= a
  }

  lemma {:induction false} ProjectedIsLogged(log: seq<Entry>, g: Group, e: Entry)
    requires e in Project(log, g)
    ensures e in log
  {
    if e in Project(log[..|log| - 1], g) {
      ProjectedIsLogged(log[..|log| - 1], g, e);
    }
  }

  lemma ExactContains(db: DbState, g: Group)
    requires Exact(db, g)
    ensures Contains(db.log, g, |Applied(db, g)|)
  {
    forall i | 0 <= i < |Applied(db, g)| ensures Logged(db.log, g, i) {
      var e := Project(db.log, g)[i];
      assert e == Entry(g, i, Applied(db, g)[i]);
      ProjectedIsLogged(db.log, g, e);
    }
  }

  /** In an exact log the statements of a list stand at their indexes exactly when the
      list is a prefix of what was applied. */
  lemma LoggedTextExactly(db: DbState, g: Group, stmts: seq<Stmt>)
    requires Exact(db, g) && |stmts| <= |Applied(db, g)|
    ensures LoggedText(db.log, g, stmts) <==> stmts <= Applied(db, g)
  {
    var p, applied := Project(db.log, g), Applied(db, g);
    forall i | 0 <= i < |stmts| ensures Entry(g, i, stmts[i]) in db.log <==> stmts[i] == applied[i] {
      assert p[i] == Entry(g, i, applied[i]);
      ProjectedIsLogged(db.log, g, p[i]);
      if Entry(g, i, stmts[i]) in db.log {
        LoggedIsProjected(db.log, g, Entry(g, i, stmts[i]));
        var j :| 0 <= j < |p| && p[j] == Entry(g, i, stmts[i]);
        assert p[j] == Entry(g, j, applied[j]);
      }
    }
    if LoggedText(db.log, g, stmts) {
      forall i | 0 <= i < |stmts| ensures stmts[i] == applied[i] {
        assert Entry(g, i, stmts[i]) in db.log;
      }
    }
  }

  lemma {:induction false} LoggedIsProjected(log: seq<Entry>, g: Group, e: Entry)
    requires e in log && e.group == g
    ensures e in Project(log, g)
  {
    if e in log[..|log| - 1] {
      LoggedIsProjected(log[..|log| - 1], g, e);
    }
  }

  lemma DependencyIsEarlier(r: Run, n: nat, d: Group)
    requires ValidRun(r) && n < |r.order| && DependsOn(r.deps, r.order[n], d)
    ensures d in r.lists && d in r.order[..n]
  {
    var p :| IsPath(r.deps, p) && p[0] == r.order[n] && p[|p| - 1] == d;
    assert p[|p| - 2] in r.deps && p[|p| - 1] in r.deps[p[|p| - 2]];
    assert d in Unregistered(r.deps) <==> d !in r.deps;
    PathGoesBack(r.deps, r.order, p, n);
  }

  /** When the loop of a run comes to its n-th group, the statements that the run registers
      for a dependency of it are in the log exactly when they and those applied before the
      run are prefix-comparable. */
  lemma DependencyTextExactly(db: DbState, r: Run, n: nat, d: Group)
    requires ValidRun(r) && n < |r.order| && DependsOn(r.deps, r.order[n], d)
    requires forall g :: Exact(db, g)
    requires forall g :: g in r.order ==> g in r.lists
    ensures d in r.lists
    ensures var log := RunGroups(db, r.order[..n], r.lists).log;
            Contains(log, d, |r.lists[d]|)
            && (LoggedText(log, d, r.lists[d]) <==> Comparable(Applied(db, d), r.lists[d]))
  {
    var before := RunGroups(db, r.order[..n], r.lists);
    DependencyIsEarlier(r, n, d);
    assert NoDuplicates(r.order[..n]);
    RunGroupsExact(db, r.order[..n], r.lists, d);
    ExactContains(before, d);
    LoggedTextExactly(before, d, r.lists[d]);
    ExtendsExactly(Applied(db, d), r.lists[d]);
  }

  lemma ExtendsExactly(a: seq<Stmt>, b: seq<Stmt>)
    ensures b <= Extend(a, b) <==> Comparable(a, b)
  {
    if |a| < |b| && b <= Extend(a, b) {
      assert a == Extend(a, b)[..|a|] && b[..|a|] == Extend(a, b)[..|a|];
    }
  }

  lemma GrownIsComparable(h: seq<Run>, r: Run, d: Group)
    requires AllValid(h) && d in r.lists && PrefixComparable(h + [r], d)
    ensures Comparable(Applied(Serial(h), d), r.lists[d])
  {
    var all := h + [r];
    assert all[..|all| - 1] == h;
    assert forall a :: Registers(h, d, a) ==> Registers(all, d, a);
    assert Registers(all, d, r.lists[d]);
    assert PrefixComparable(h, d);
    AppliedIsLongest(h, d);
  }

  /** When the loop of a run comes to its n-th group, everything that group depends on
      has been applied, whichever order was chosen. */
  lemma DependenciesReady(h: seq<Run>, r: Run, n: nat)
    requires AllValid(h) && ValidRun(r) && n < |r.order|
    requires forall g :: g in r.order ==> g in r.lists
    ensures DependenciesApplied(h, r, r.order[n], RunGroups(Serial(h), r.order[..n], r.lists).log)
  {
    forall g ensures Exact(Serial(h), g) { SerialExact(h, g); }
    var log := RunGroups(Serial(h), r.order[..n], r.lists).log;
    forall d | DependsOn(r.deps, r.order[n], d)
      ensures d in r.lists && Contains(log, d, |r.lists[d]|)
      ensures PrefixComparable(h + [r], d) ==> LoggedText(log, d, r.lists[d])
    {
      DependencyTextExactly(Serial(h), r, n, d);
      if PrefixComparable(h + [r], d) { GrownIsComparable(h, r, d); }
    }
  }

  lemma MoreIsLogged(log: seq<Entry>, more: seq<Entry>, d: Group, stmts: seq<Stmt>)
    requires log <= more
    ensures Contains(log, d, |stmts|) ==> Contains(more, d, |stmts|)
    ensures LoggedText(log, d, stmts) ==> LoggedText(more, d, stmts)
  {
    if Contains(log, d, |stmts|) {
      forall i | 0 <= i < |stmts| ensures Logged(more, d, i) {
        assert Logged(log, d, i);
        var stmt :| Entry(d, i, stmt) in log;
        assert Entry(d, i, stmt) in more;
      }
    }
  }

  lemma MoreIsApplied(h: seq<Run>, r: Run, g: Group, log: seq<Entry>, more: seq<Entry>)
    requires DependenciesApplied(h, r, g, log) && log <= more
    ensures DependenciesApplied(h, r, g, more)
  {
    forall d | DependsOn(r.deps, g, d)
      ensures Contains(more, d, |r.lists[d]|)
      ensures PrefixComparable(h + [r], d) ==> LoggedText(more, d, r.lists[d])
    {
      MoreIsLogged(log, more, d, r.lists[d]);
    }
  }

  /** Log entry k was applied by run r after the runs h, and after all that its group
      depends on there. */
  ghost predicate AppliedInOrder(h: seq<Run>, r: Run, log: seq<Entry>, k: nat)
    requires k < |log|
  {
    log[k].group in r.lists && DependenciesApplied(h, r, log[k].group, log[..k])
  }

  lemma PassKeepsOrder(h: seq<Run>, before: DbState, g: Group, r: Run, k: nat)
    requires g in r.lists && DependenciesApplied(h, r, g, before.log)
    requires k < |RunGroup(before, g, r.lists[g]).log|
    requires k < |before.log| ==> AppliedInOrder(h, r, before.log, k)
    ensures AppliedInOrder(h, r, RunGroup(before, g, r.lists[g]).log, k)
  {
    var log := RunGroup(before, g, r.lists[g]).log;
    if k < |before.log| {
      assert log[..k] == before.log[..k];
    } else {
      MoreIsApplied(h, r, g, before.log, log[..k]);
    }
  }

  lemma {:induction false} RunKeepsOrder(h: seq<Run>, r: Run, n: nat)
    requires AllValid(h) && ValidRun(r) && n <= |r.order|
    requires forall g :: g in r.order ==> g in r.lists
    ensures var db, log := Serial(h), RunGroups(Serial(h), r.order[..n], r.lists).log;
            db.log <= log && forall k :: |db.log| <= k < |log| ==> AppliedInOrder(h, r, log, k)
    decreases n
  {
    if n > 0 {
      var db, g := Serial(h), r.order[n - 1];
      assert r.order[..n][..n - 1] == r.order[..n - 1];
      var before := RunGroups(db, r.order[..n - 1], r.lists);
      var log := RunGroups(db, r.order[..n], r.lists).log;
      RunKeepsOrder(h, r, n - 1);
      DependenciesReady(h, r, n - 1);
      forall k | |db.log| <= k < |log| ensures AppliedInOrder(h, r, log, k) {
        PassKeepsOrder(h, before, g, r, k);
      }
    }
  }

  /** Over any history of runs: each statement in the log was put there by a run in which
      everything its group depends on was already in the log before it. */
  lemma {:induction false} DependenciesFirstInLog(h: seq<Run>, k: nat)
    requires AllValid(h) && k < |Serial(h).log|
    ensures exists n :: 0 <= n < |h| && AppliedInOrder(h[..n], h[n], Serial(h).log, k)
    decreases |h|
  {
    var front, r := h[..|h| - 1], h[|h| - 1];
    var db := Serial(front);
    OrderIsRegistered(r);
    RunKeepsOrder(front, r, |r.order|);
    assert r.order[..|r.order|] == r.order;
    if k < |db.log| {
      DependenciesFirstInLog(front, k);
      var n :| 0 <= n < |front| && AppliedInOrder(front[..n], front[n], db.log, k);
      assert Serial(h).log[..k] == db.log[..k];
      assert h[n] == front[n] && h[..n] == front[..n];
      assert AppliedInOrder(h[..n], h[n], Serial(h).log, k);
    } else {
      assert AppliedInOrder(h[..|h| - 1], h[|h| - 1], Serial(h).log, k);
    }
  }
}
