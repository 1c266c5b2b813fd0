/** What runs of the migrator do to a database, one after the other: the statements they
    add to the log of everything ever applied, and the version of each group. */
module Migrations {
  import opened MigrationOrder

  type Stmt = string

  datatype Entry = Entry(group: Group, index: nat, stmt: Stmt)

  datatype DbState = DbState(log: seq<Entry>, versions: map<Group, nat>)

  const EMPTY_DB := DbState([], map[])

  /** One call of Migrate: the registered dependencies and statements, and the order the
      groups were put in. */
  datatype Run = Run(deps: Deps, lists: map<Group, seq<Stmt>>, order: seq<Group>)

  ghost predicate ValidRun(r: Run) {
    && r.lists.Keys == r.deps.Keys
    && Unregistered(r.deps) == {}
    && IsLinearExtension(r.deps, r.order)
  }

  /** sqlGroupLastVersion, with -1 for a group without a row. */
  function LastVersion(db: DbState, g: Group): int {
    if g in db.versions then db.versions[g] else -1
  }

  function Entries(g: Group, stmts: seq<Stmt>, from: nat): seq<Entry>
    requires from <= |stmts|
  {
    seq(|stmts| - from, i requires 0 <= i < |stmts| - from => Entry(g, from + i, stmts[from + i]))
  }

  /** A successful pass of Migrate's loop: the missing statements of g, then its version. */
  function RunGroup(db: DbState, g: Group, stmts: seq<Stmt>): DbState {
    var next := LastVersion(db, g) + 1;
    if |stmts| > next then
      DbState(db.log + Entries(g, stmts, next), db.versions[g := |stmts| - 1])
    else db
  }

  function RunGroups(db: DbState, order: seq<Group>, lists: map<Group, seq<Stmt>>): DbState
    requires forall g :: g in order ==> g in lists
  {
    if order == [] then db
    else
      var g := order[|order| - 1];
      RunGroup(RunGroups(db, order[..|order| - 1], lists), g, lists[g])
  }

  lemma RunGroupsAppend(db: DbState, front: seq<Group>, g: Group, lists: map<Group, seq<Stmt>>)
    requires g in lists && forall h :: h in front ==> h in lists
    ensures RunGroups(db, front + [g], lists) == RunGroup(RunGroups(db, front, lists), g, lists[g])
  {
    var all := front + [g];
    assert all[..|all| - 1] == front;
  }

  lemma RunGroupsStep(db: DbState, order: seq<Group>, lists: map<Group, seq<Stmt>>, n: nat)
    requires n < |order| && forall g :: g in order ==> g in lists
    ensures RunGroups(db, order[..n + 1], lists)
         == RunGroup(RunGroups(db, order[..n], lists), order[n], lists[order[n]])
  {
    RunGroupsAppend(db, order[..n], order[n], lists);
    assert order[..n] + [order[n]] == order[..n + 1];
  }

  lemma OrderIsRegistered(r: Run)
    requires ValidRun(r)
    ensures forall g :: g in r.order <==> g in r.lists
  {
    forall g ensures g in r.order <==> g in r.lists {
      assert g in Elements(r.order) <==> g in r.lists;
    }
  }

  ghost function RunAll(db: DbState, r: Run): DbState
    requires ValidRun(r)
  {
    OrderIsRegistered(r);
    RunGroups(db, r.order, r.lists)
  }

  ghost predicate AllValid(h: seq<Run>) {
    forall i :: 0 <= i < |h| ==> ValidRun(h[i])
  }

  /** A sequence of successful runs, from a database that was never migrated. */
  ghost function Serial(h: seq<Run>): DbState
    requires AllValid(h)
  {
    if h == [] then EMPTY_DB else RunAll(Serial(h[..|h| - 1]), h[|h| - 1])
  }

  // ---------- reading a group's statements off the log ----------

  function Project(log: seq<Entry>, g: Group): seq<Entry> {
    if log == [] then []
    else Project(log[..|log| - 1], g) + if log[|log| - 1].group == g then [log[|log| - 1]] else []
  }

  /** The statements of g that were applied, in the order they were. */
  function Applied(db: DbState, g: Group): seq<Stmt> {
    var p := Project(db.log, g);
    seq(|p|, i requires 0 <= i < |p| => p[i].stmt)
  }

  /** The entries of g are its indexes from 0 up, each once and in order, and its version
      is the last of them. */
  ghost predicate Exact(db: DbState, g: Group) {
    Project(db.log, g) == Entries(g, Applied(db, g), 0) && LastVersion(db, g) + 1 == |Applied(db, g)|
  }

  /** What one list of statements makes of those already applied. */
  function Extend(applied: seq<Stmt>, stmts: seq<Stmt>): seq<Stmt> {
    if |applied| < |stmts| then applied + stmts[|applied|..] else applied
  }

  lemma {:induction false} ProjectAppend(a: seq<Entry>, b: seq<Entry>, g: Group)
    ensures Project(a + b, g) == Project(a, g) + Project(b, g)
  {
    if b == [] {
      assert a + b == a;
    } else {
      var front := b[..|b| - 1];
      ProjectAppend(a, front, g);
      assert (a + b)[..|a + b| - 1] == a + front;
    }
  }

  lemma ProjectAt(log: seq<Entry>, k: nat, g: Group)
    requires k < |log| && log[k].group == g
    ensures var n := |Project(log[..k], g)|;
            n < |Project(log, g)| && Project(log, g)[n] == log[k]
  {
    var one := [log[k]];
    assert log == log[..k] + (one + log[k + 1..]);
    ProjectAppend(log[..k], one + log[k + 1..], g);
    ProjectAppend(one, log[k + 1..], g);
    assert one[..0] == [] && Project(one, g) == one;
  }

  /** In an exact log an entry's index is the number of its group's entries before it, so
      no statement is applied twice and none ahead of an earlier one. */
  lemma IndexCountsEarlier(db: DbState, k: nat)
    requires k < |db.log| && Exact(db, db.log[k].group)
    ensures db.log[k].index == |Project(db.log[..k], db.log[k].group)|
    ensures forall j :: 0 <= j < k && db.log[j].group == db.log[k].group ==> db.log[j].index < db.log[k].index
  {
    var log, g := db.log, db.log[k].group;
    ProjectAt(log, k, g);
    forall j | 0 <= j < k && log[j].group == g ensures log[j].index < log[k].index {
      ProjectAt(log, j, g);
      ProjectAt(log[..k], j, g);
      assert log[..k][..j] == log[..j];
    }
  }

  lemma {:induction false} ProjectOneGroup(es: seq<Entry>, g: Group, h: Group)
    requires forall i :: 0 <= i < |es| ==> es[i].group == g
    ensures Project(es, h) == if g == h then es else []
  {
    if es != [] {
      var front, last := es[..|es| - 1], es[|es| - 1];
      ProjectOneGroup(front, g, h);
      assert es == front + [last];
    }
  }

  lemma AppendProjects(log: seq<Entry>, es: seq<Entry>, g: Group, h: Group)
    requires forall i :: 0 <= i < |es| ==> es[i].group == g
    ensures Project(log + es, h) == Project(log, h) + if g == h then es else []
  {
    ProjectAppend(log, es, h);
    ProjectOneGroup(es, g, h);
  }

  lemma RunGroupProjects(db: DbState, g: Group, stmts: seq<Stmt>, h: Group)
    requires LastVersion(db, g) + 1 < |stmts|
    ensures Project(RunGroup(db, g, stmts).log, h)
         == Project(db.log, h) + if g == h then Entries(g, stmts, LastVersion(db, g) + 1) else []
  {
    AppendProjects(db.log, Entries(g, stmts, LastVersion(db, g) + 1), g, h);
  }

  lemma EntriesGlue(g: Group, a: seq<Stmt>, stmts: seq<Stmt>)
    requires |a| < |stmts|
    ensures Entries(g, a, 0) + Entries(g, stmts, |a|) == Entries(g, Extend(a, stmts), 0)
  {
  }

  lemma AppliedOfEntries(db: DbState, g: Group, stmts: seq<Stmt>)
    requires Project(db.log, g) == Entries(g, stmts, 0)
    ensures Applied(db, g) == stmts
  {
  }

  lemma OwnGroupExact(db: DbState, g: Group, stmts: seq<Stmt>)
    requires Exact(db, g) && LastVersion(db, g) + 1 < |stmts|
    ensures var after := RunGroup(db, g, stmts);
            Exact(after, g) && Applied(after, g) == Extend(Applied(db, g), stmts)
  {
    var after := RunGroup(db, g, stmts);
    RunGroupProjects(db, g, stmts, g);
    EntriesGlue(g, Applied(db, g), stmts);
    AppliedOfEntries(after, g, Extend(Applied(db, g), stmts));
  }

  /** A pass for g applies what is missing of g and leaves every other group alone. */
  lemma RunGroupExact(db: DbState, g: Group, stmts: seq<Stmt>, h: Group)
    requires Exact(db, g) && Exact(db, h)
    ensures var after := RunGroup(db, g, stmts);
            Exact(after, h) && Applied(after, h) == if g == h then Extend(Applied(db, h), stmts) else Applied(db, h)
  {
    if LastVersion(db, g) + 1 < |stmts| {
      if g == h {
        OwnGroupExact(db, g, stmts);
      } else {
        var after := RunGroup(db, g, stmts);
        RunGroupProjects(db, g, stmts, h);
        assert Project(after.log, h) == Project(db.log, h) && Applied(after, h) == Applied(db, h);
      }
    }
  }

  lemma {:induction false} RunGroupsExact(db: DbState, order: seq<Group>, lists: map<Group, seq<Stmt>>, h: Group)
    requires NoDuplicates(order) && forall g :: g in order ==> g in lists
    requires forall g :: Exact(db, g)
    ensures var after := RunGroups(db, order, lists);
            Exact(after, h)
            && Applied(after, h) == if h in order then Extend(Applied(db, h), lists[h]) else Applied(db, h)
  {
    if order != [] {
      var front, g := order[..|order| - 1], order[|order| - 1];
      RunGroupsExact(db, front, lists, h);
      RunGroupsExact(db, front, lists, g);
      RunGroupExact(RunGroups(db, front, lists), g, lists[g], h);
      assert order == front + [g];
      assert g !in front;
    }
  }

  /** After any sequence of successful runs every group's part of the log is exactly its
      statements 0..version, with no gap, repetition or reordering, whatever lists the
      runs registered; and one more run only appends what is missing from it. */
  lemma {:induction false} SerialExact(h: seq<Run>, g: Group)
    requires AllValid(h)
    ensures Exact(Serial(h), g)
    ensures h != [] ==>
              var r, before := h[|h| - 1], Applied(Serial(h[..|h| - 1]), g);
              Applied(Serial(h), g) == if g in r.lists then Extend(before, r.lists[g]) else before
    decreases |h|
  {
    if h != [] {
      var front, r := h[..|h| - 1], h[|h| - 1];
      forall k ensures Exact(Serial(front), k) { SerialExact(front, k); }
      OrderIsRegistered(r);
      RunGroupsExact(Serial(front), r.order, r.lists, g);
    }
  }

  // ---------- whole histories ----------

  /** Some run of the history registered exactly these statements for g. */
  predicate Registers(h: seq<Run>, g: Group, stmts: seq<Stmt>) {
    h != [] && (var r := h[|h| - 1];
                (g in r.lists && r.lists[g] == stmts) || Registers(h[..|h| - 1], g, stmts))
  }

  /** The lists registered for g over time only ever grew at their end. */
  ghost predicate PrefixComparable(h: seq<Run>, g: Group) {
    forall a, b :: Registers(h, g, a) && Registers(h, g, b) ==> a <= b || b <= a
  }

  /** The lengths alone: the version of a group is that of the longest list ever
      registered for it, so no registration lowers it. */
  lemma {:induction false} VersionIsMaximum(h: seq<Run>, g: Group)
    requires AllValid(h)
    ensures forall a :: Registers(h, g, a) ==> |a| <= LastVersion(Serial(h), g) + 1
    ensures LastVersion(Serial(h), g) == -1 || exists a :: Registers(h, g, a) && |a| == LastVersion(Serial(h), g) + 1
    decreases |h|
  {
    if h != [] {
      var front, r := h[..|h| - 1], h[|h| - 1];
      VersionIsMaximum(front, g);
      SerialExact(front, g);
      SerialExact(h, g);
      if g in r.lists { assert Registers(h, g, r.lists[g]); }
    }
  }

  /** With prefix-comparable lists, what was applied of a group is the longest of them:
      every registered list is a prefix of it, and it is one of them unless nothing was
      ever registered. */
  lemma {:induction false} AppliedIsLongest(h: seq<Run>, g: Group)
    requires AllValid(h) && PrefixComparable(h, g)
    ensures forall a :: Registers(h, g, a) ==> a <= Applied(Serial(h), g)
    ensures Applied(Serial(h), g) == [] || Registers(h, g, Applied(Serial(h), g))
    decreases |h|
  {
    if h != [] {
      var front, r := h[..|h| - 1], h[|h| - 1];
      assert forall a :: Registers(front, g, a) ==> Registers(h, g, a);
      assert PrefixComparable(front, g);
      AppliedIsLongest(front, g);
      SerialExact(h, g);
      var before := Applied(Serial(front), g);
      if g in r.lists {
        var last := r.lists[g];
        assert Registers(h, g, last);
        assert before == [] || Registers(h, g, before);
        assert before <= last || last <= before;
        ExtendComparable(before, last);
      }
    }
  }

  lemma ExtendComparable(a: seq<Stmt>, b: seq<Stmt>)
    requires a <= b || b <= a
    ensures Extend(a, b) == if |a| < |b| then b else a
  {
  }

  /** Incremental equals one-shot: if one run of the history registers the longest list
      of g, that run alone would have left g just the same. */
  lemma IncrementalIsOneShot(h: seq<Run>, r: Run, g: Group)
    requires AllValid(h) && PrefixComparable(h, g) && ValidRun(r) && g in r.lists
    requires Registers(h, g, r.lists[g]) && forall a :: Registers(h, g, a) ==> |a| <= |r.lists[g]|
    ensures Project(Serial(h).log, g) == Project(Serial([r]).log, g)
    ensures LastVersion(Serial(h), g) == LastVersion(Serial([r]), g)
  {
    AppliedIsLongest(h, g);
    SerialExact(h, g);
    SerialExact([r], g);
    assert [r][..0] == [] && Serial([]) == EMPTY_DB;
    assert Applied(EMPTY_DB, g) == [];
    assert Applied(Serial(h), g) == r.lists[g];
    assert Applied(Serial([r]), g) == r.lists[g];
  }

  lemma {:induction false} NothingMissing(db: DbState, order: seq<Group>, lists: map<Group, seq<Stmt>>)
    requires forall g :: g in order ==> g in lists && |lists[g]| <= LastVersion(db, g) + 1
    ensures RunGroups(db, order, lists) == db
  {
    if order != [] {
      NothingMissing(db, order[..|order| - 1], lists);
    }
  }

  /** Running again what was run before, or an older registration of it, changes nothing
      at all. */
  lemma RerunIsNoOp(h: seq<Run>, r: Run)
    requires AllValid(h) && ValidRun(r)
    requires forall g :: g in r.lists ==> exists a :: Registers(h, g, a) && |r.lists[g]| <= |a|
    ensures RunAll(Serial(h), r) == Serial(h)
  {
    OrderIsRegistered(r);
    forall g | g in r.order ensures |r.lists[g]| <= LastVersion(Serial(h), g) + 1 {
      var a :| Registers(h, g, a) && |r.lists[g]| <= |a|;
      VersionIsMaximum(h, g);
    }
    NothingMissing(Serial(h), r.order, r.lists);
  }
}
