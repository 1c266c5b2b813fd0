/** Any number of concurrent Migrate calls against one database, interleaved statement by
    statement. Transactions are READ COMMITTED: a statement sees what is committed when
    it executes, and its own transaction's writes on top. */
module ConcurrentMigrations {
  import opened Wrappers
  import opened MigrationOrder
  import opened Migrations
  import opened MigrationDependencies

  type Pid = nat

  /** The migrator's own, idempotent statements under _embed; they leave the groups alone. */
  const ROOT_STATEMENTS := 1

  /** Where a migrator is. All but the first two hold the advisory lock. */
  datatype Pc =
    | Outside
    | Begun
    | Root(done: nat)            // executing the migrator's own statements
    | NextGroup(n: nat)          // about to read the version of order[n], or to commit
    | Applying(n: nat, i: nat)   // about to execute statement i of order[n], or to set its version

  /** A migrator: its run, and the uncommitted writes of its transaction. */
  datatype Proc = Proc(pc: Pc, run: Run, log: seq<Entry>, versions: map<Group, nat>)

  /** history is not part of the database: it records the runs that committed, in commit
      order. */
  datatype State = State(db: DbState, lock: Option<Pid>, procs: map<Pid, Proc>, history: seq<Run>)

  predicate HoldsLock(p: Proc) {
    !p.pc.Outside? && !p.pc.Begun?
  }

  /** What a statement of p's transaction sees. */
  function Visible(db: DbState, p: Proc): DbState {
    DbState(db.log + p.log, db.versions + p.versions)
  }

  function ListAt(p: Proc, n: nat): seq<Stmt> {
    if n < |p.run.order| && p.run.order[n] in p.run.lists then p.run.lists[p.run.order[n]] else []
  }

  ghost predicate Init(s: State) {
    s == State(EMPTY_DB, None, map[], [])
  }

  datatype Step =
    | Begin(run: Run) | AcquireLock | ExecRoot | ReadVersion | ExecStmt | SetVersion | Commit
    | Abort    // any error, a crash or a lost connection: the server rolls back

  /** The steps inside a transaction that holds the lock, but for its end. */
  function Local(db: DbState, p: Proc, step: Step): Option<Proc> {
    match (step, p.pc)
    case (ExecRoot, Root(done)) =>
      Some(p.(pc := if done < ROOT_STATEMENTS then Root(done + 1) else NextGroup(0)))
    case (ReadVersion, NextGroup(n)) =>
      if n >= |p.run.order| then None
      else
        var last := LastVersion(Visible(db, p), p.run.order[n]);
        Some(p.(pc := if |ListAt(p, n)| > last + 1 then Applying(n, last + 1) else NextGroup(n + 1)))
    case (ExecStmt, Applying(n, i)) =>
      if n >= |p.run.order| || i >= |ListAt(p, n)| then None
      else Some(p.(pc := Applying(n, i + 1), log := p.log + [Entry(p.run.order[n], i, ListAt(p, n)[i])]))
    case (SetVersion, Applying(n, i)) =>
      if n >= |p.run.order| || i != |ListAt(p, n)| || i == 0 then None
      else Some(p.(pc := NextGroup(n + 1), versions := p.versions[p.run.order[n] := i - 1]))
    case _ => None
  }

  ghost predicate BeginsRun(s: State, s': State, pid: Pid, run: Run) {
    && (pid in s.procs ==> s.procs[pid].pc.Outside?)
    && ValidRun(run)
    && s' == s.(procs := s.procs[pid := Proc(Begun, run, [], map[])])
  }

  ghost predicate Acquires(s: State, s': State, pid: Pid) {
    && pid in s.procs && s.procs[pid].pc.Begun? && s.lock.None?
    && s' == s.(lock := Some(pid), procs := s.procs[pid := s.procs[pid].(pc := Root(0))])
  }

  ghost predicate Commits(s: State, s': State, pid: Pid) {
    && pid in s.procs && s.procs[pid].pc == NextGroup(|s.procs[pid].run.order|)
    && var p := s.procs[pid];
       s' == State(Visible(s.db, p), None, s.procs[pid := p.(pc := Outside)], s.history + [p.run])
  }

  ghost predicate Aborts(s: State, s': State, pid: Pid) {
    && pid in s.procs && !s.procs[pid].pc.Outside?
    && var p := s.procs[pid];
       s' == s.(lock := if HoldsLock(p) then None else s.lock, procs := s.procs[pid := p.(pc := Outside)])
  }

  ghost predicate Proceeds(s: State, s': State, pid: Pid, step: Step) {
    && pid in s.procs && Local(s.db, s.procs[pid], step).Some?
    && s' == s.(procs := s.procs[pid := Local(s.db, s.procs[pid], step).value])
  }

  ghost predicate Next(s: State, s': State, pid: Pid, step: Step) {
    match step
    case Begin(run) => BeginsRun(s, s', pid, run)
    case AcquireLock => Acquires(s, s', pid)
    case Commit => Commits(s, s', pid)
    case Abort => Aborts(s, s', pid)
    case _ => Proceeds(s, s', pid, step)
  }

  datatype Event = Event(pid: Pid, step: Step)

  /** States that the system can go through one after the other. */
  ghost predicate Follows(states: seq<State>, events: seq<Event>) {
    && |states| == |events| + 1
    && forall i :: 0 <= i < |events| ==> Next(states[i], states[i + 1], events[i].pid, events[i].step)
  }

  /** A run of the system from its start, under some interleaving. */
  ghost predicate IsBehaviour(states: seq<State>, events: seq<Event>) {
    Follows(states, events) && Init(states[0])
  }

  // ---------- the invariant ----------

  /** A pass of the serial loop over g, stopped after statement i - 1. */
  function Partial(before: DbState, g: Group, stmts: seq<Stmt>, i: nat): DbState {
    var next := LastVersion(before, g) + 1;
    if next <= i <= |stmts| then before.(log := before.log + Entries(g, stmts[..i], next)) else before
  }

  ghost predicate Registered(r: Run) {
    ValidRun(r) && forall g :: g in r.order ==> g in r.lists
  }

  /** The state a serial run would be in at pc, had it started from db. */
  ghost function Expected(db: DbState, r: Run, pc: Pc): DbState
    requires Registered(r)
  {
    match pc
    case NextGroup(n) => if n <= |r.order| then RunGroups(db, r.order[..n], r.lists) else db
    case Applying(n, i) =>
      if n < |r.order| then Partial(RunGroups(db, r.order[..n], r.lists), r.order[n], r.lists[r.order[n]], i) else db
    case _ => db
  }

  ghost predicate InRange(db: DbState, r: Run, pc: Pc)
    requires Registered(r)
  {
    match pc
    case NextGroup(n) => n <= |r.order|
    case Applying(n, i) =>
      n < |r.order| && var stmts := r.lists[r.order[n]];
                       var next := LastVersion(RunGroups(db, r.order[..n], r.lists), r.order[n]) + 1;
                       next <= i <= |stmts| && next < |stmts|
    case _ => true
  }

  /** What the transaction of the lock holder sees is what a serial run from the committed
      state would have produced by then. */
  ghost predicate InProgress(db: DbState, p: Proc) {
    && Registered(p.run)
    && InRange(db, p.run, p.pc)
    && Visible(db, p) == Expected(db, p.run, p.pc)
  }

  ghost predicate Inv(s: State) {
    && AllValid(s.history)
    && s.db == Serial(s.history)
    && (s.lock.Some? ==> s.lock.value in s.procs)
    && (forall pid :: pid in s.procs ==> (HoldsLock(s.procs[pid]) <==> s.lock == Some(pid)))
    && (forall pid :: pid in s.procs && HoldsLock(s.procs[pid]) ==> InProgress(s.db, s.procs[pid]))
    && (forall pid :: pid in s.procs && s.procs[pid].pc.Begun? ==>
          Registered(s.procs[pid].run) && s.procs[pid].log == [] && s.procs[pid].versions == map[])
  }

  lemma FirstGroup(db: DbState, r: Run)
    requires Registered(r)
    ensures Expected(db, r, NextGroup(0)) == db
  {
    assert r.order[..0] == [];
  }

  lemma PassEnds(db: DbState, r: Run, n: nat)
    requires Registered(r) && n < |r.order|
    ensures Expected(db, r, NextGroup(n + 1))
         == RunGroup(Expected(db, r, NextGroup(n)), r.order[n], r.lists[r.order[n]])
  {
    RunGroupsStep(db, r.order, r.lists, n);
  }

  lemma PartialSteps(before: DbState, g: Group, stmts: seq<Stmt>, i: nat)
    requires LastVersion(before, g) + 1 <= i <= |stmts|
    ensures i == LastVersion(before, g) + 1 ==> Partial(before, g, stmts, i) == before
    ensures i < |stmts| ==>
              Partial(before, g, stmts, i + 1)
              == Partial(before, g, stmts, i).(log := Partial(before, g, stmts, i).log + [Entry(g, i, stmts[i])])
    ensures i == |stmts| > LastVersion(before, g) + 1 ==>
              RunGroup(before, g, stmts)
              == Partial(before, g, stmts, i).(versions := Partial(before, g, stmts, i).versions[g := i - 1])
  {
    var next := LastVersion(before, g) + 1;
    if i == next { assert Entries(g, stmts[..i], next) == []; }
    if i < |stmts| {
      assert Entries(g, stmts[..i + 1], next) == Entries(g, stmts[..i], next) + [Entry(g, i, stmts[i])];
    } else {
      assert stmts[..i] == stmts;
    }
  }

  lemma VisibleEntry(db: DbState, p: Proc, pc: Pc, e: Entry)
    ensures Visible(db, p.(pc := pc, log := p.log + [e])) == Visible(db, p).(log := Visible(db, p).log + [e])
  {
  }

  lemma VisibleVersion(db: DbState, p: Proc, pc: Pc, g: Group, v: nat)
    ensures Visible(db, p.(pc := pc, versions := p.versions[g := v]))
         == Visible(db, p).(versions := Visible(db, p).versions[g := v])
  {
    assert db.versions + p.versions[g := v] == (db.versions + p.versions)[g := v];
  }

  lemma NothingVisible(db: DbState, p: Proc)
    requires p.log == [] && p.versions == map[]
    ensures Visible(db, p) == db
  {
    assert db.versions + map[] == db.versions;
  }

  lemma ReadProgresses(db: DbState, p: Proc)
    requires p.pc.NextGroup? && InProgress(db, p) && Local(db, p, ReadVersion).Some?
    ensures InProgress(db, Local(db, p, ReadVersion).value)
  {
    var r, n := p.run, p.pc.n;
    var before := Expected(db, r, NextGroup(n));
    PassEnds(db, r, n);
    if |ListAt(p, n)| > LastVersion(before, r.order[n]) + 1 {
      PartialSteps(before, r.order[n], r.lists[r.order[n]], LastVersion(before, r.order[n]) + 1);
    }
  }

  lemma ExecProgresses(db: DbState, p: Proc)
    requires p.pc.Applying? && InProgress(db, p) && Local(db, p, ExecStmt).Some?
    ensures InProgress(db, Local(db, p, ExecStmt).value)
  {
    var r, n, i := p.run, p.pc.n, p.pc.i;
    var before := Expected(db, r, NextGroup(n));
    var stmts := r.lists[r.order[n]];
    PartialSteps(before, r.order[n], stmts, i);
    VisibleEntry(db, p, Applying(n, i + 1), Entry(r.order[n], i, stmts[i]));
  }

  lemma PassIsOver(db: DbState, r: Run, n: nat, i: nat)
    requires Registered(r) && InRange(db, r, Applying(n, i)) && i == |r.lists[r.order[n]]|
    ensures var d := Expected(db, r, Applying(n, i));
            Expected(db, r, NextGroup(n + 1)) == d.(versions := d.versions[r.order[n] := i - 1])
  {
    var before := Expected(db, r, NextGroup(n));
    PassEnds(db, r, n);
    PartialSteps(before, r.order[n], r.lists[r.order[n]], i);
  }

  function WithVersion(db: DbState, g: Group, v: nat): DbState {
    db.(versions := db.versions[g := v])
  }

  lemma SetIsVisible(db: DbState, p: Proc)
    requires p.pc.Applying? && Local(db, p, SetVersion).Some?
    ensures Visible(db, Local(db, p, SetVersion).value)
         == WithVersion(Visible(db, p), p.run.order[p.pc.n], p.pc.i - 1)
  {
    VisibleVersion(db, p, NextGroup(p.pc.n + 1), p.run.order[p.pc.n], p.pc.i - 1);
  }

  lemma SetIsExpected(db: DbState, p: Proc)
    requires p.pc.Applying? && Registered(p.run) && InRange(db, p.run, p.pc) && Local(db, p, SetVersion).Some?
    ensures Expected(db, p.run, NextGroup(p.pc.n + 1))
         == WithVersion(Expected(db, p.run, p.pc), p.run.order[p.pc.n], p.pc.i - 1)
  {
    PassIsOver(db, p.run, p.pc.n, p.pc.i);
  }

  lemma SetProgresses(db: DbState, p: Proc)
    requires p.pc.Applying? && InProgress(db, p) && Local(db, p, SetVersion).Some?
    ensures InProgress(db, Local(db, p, SetVersion).value)
  {
    SetIsVisible(db, p);
    SetIsExpected(db, p);
  }

  /** A statement of the lock holder's transaction takes it one serial step further. */
  lemma HolderProgresses(db: DbState, p: Proc, step: Step)
    requires InProgress(db, p) && Local(db, p, step).Some?
    ensures HoldsLock(p) && HoldsLock(Local(db, p, step).value)
    ensures InProgress(db, Local(db, p, step).value)
  {
    if step.ExecRoot? { FirstGroup(db, p.run); }
    else if step.ReadVersion? { ReadProgresses(db, p); }
    else if step.ExecStmt? { ExecProgresses(db, p); }
    else { SetProgresses(db, p); }
  }

  lemma HolderKeepsInv(s: State, s': State, pid: Pid, p': Proc)
    requires Inv(s) && s.lock == Some(pid) && s' == s.(procs := s.procs[pid := p'])
    requires HoldsLock(p') && InProgress(s.db, p')
    ensures Inv(s')
  {
  }

  lemma CommitIsSerial(s: State, p: Proc)
    requires AllValid(s.history) && s.db == Serial(s.history)
    requires p.pc == NextGroup(|p.run.order|) && InProgress(s.db, p)
    ensures AllValid(s.history + [p.run]) && Visible(s.db, p) == Serial(s.history + [p.run])
  {
    var h := s.history + [p.run];
    assert h[..|h| - 1] == s.history;
    assert p.run.order[..|p.run.order|] == p.run.order;
  }

  lemma CommitKeepsInv(s: State, s': State, pid: Pid)
    requires Inv(s) && Commits(s, s', pid)
    ensures Inv(s')
  {
    CommitIsSerial(s, s.procs[pid]);
  }

  lemma AcquireKeepsInv(s: State, s': State, pid: Pid)
    requires Inv(s) && Acquires(s, s', pid)
    ensures Inv(s')
  {
    NothingVisible(s.db, s'.procs[pid]);
  }

  lemma BeginKeepsInv(s: State, s': State, pid: Pid, run: Run)
    requires Inv(s) && BeginsRun(s, s', pid, run)
    ensures Inv(s')
  {
    OrderIsRegistered(run);
  }

  lemma AbortKeepsInv(s: State, s': State, pid: Pid)
    requires Inv(s) && Aborts(s, s', pid)
    ensures Inv(s')
  {
  }

  lemma ProceedKeepsInv(s: State, s': State, pid: Pid, step: Step)
    requires Inv(s) && Proceeds(s, s', pid, step)
    ensures Inv(s')
  {
    var p := s.procs[pid];
    assert HoldsLock(p);
    HolderProgresses(s.db, p, step);
    HolderKeepsInv(s, s', pid, s'.procs[pid]);
  }

  /** Every step of every migrator, whatever the interleaving, keeps the invariant. */
  lemma StepKeepsInv(s: State, s': State, pid: Pid, step: Step)
    requires Inv(s) && Next(s, s', pid, step)
    ensures Inv(s')
  {
    match step
    case Begin(run) => BeginKeepsInv(s, s', pid, run);
    case AcquireLock => AcquireKeepsInv(s, s', pid);
    case Commit => CommitKeepsInv(s, s', pid);
    case Abort => AbortKeepsInv(s, s', pid);
    case _ => ProceedKeepsInv(s, s', pid, step);
  }

  // ---------- what holds in every behaviour ----------

  lemma {:induction false} BehaviourKeepsInv(states: seq<State>, events: seq<Event>, i: nat)
    requires IsBehaviour(states, events) && i < |states|
    ensures Inv(states[i])
  {
    if i > 0 {
      BehaviourKeepsInv(states, events, i - 1);
      StepKeepsInv(states[i - 1], states[i], events[i - 1].pid, events[i - 1].step);
    }
  }

  /** Whatever the interleaving, the committed database is that of a serial execution of
      the committed runs in commit order: so in every state each (group, index) is in the
      committed log at most once, each group's entries are its indexes from 0 with no gap
      or reordering, and the version is the index of the last of them. */
  lemma ConcurrentIsSerial(states: seq<State>, events: seq<Event>, i: nat, g: Group)
    requires IsBehaviour(states, events) && i < |states|
    ensures AllValid(states[i].history) && states[i].db == Serial(states[i].history)
    ensures Exact(states[i].db, g)
  {
    BehaviourKeepsInv(states, events, i);
    SerialExact(states[i].history, g);
  }

  /** ... and no statement is ever applied twice, nor before an earlier one of its group. */
  lemma AppliedOnceInOrder(states: seq<State>, events: seq<Event>, i: nat, j: nat, k: nat)
    requires IsBehaviour(states, events) && i < |states| && j < k < |states[i].db.log|
    requires states[i].db.log[j].group == states[i].db.log[k].group
    ensures states[i].db.log[j].index < states[i].db.log[k].index
  {
    ConcurrentIsSerial(states, events, i, states[i].db.log[k].group);
    IndexCountsEarlier(states[i].db, k);
  }

  /** Whatever the interleaving, with lists that only grew at their end: what is committed
      of a group is the longest list any committed run registered for it, and its version
      is that of the longest. */
  lemma ConcurrentAppliesLongest(states: seq<State>, events: seq<Event>, i: nat, g: Group)
    requires IsBehaviour(states, events) && i < |states|
    requires PrefixComparable(states[i].history, g)
    ensures var h, applied := states[i].history, Applied(states[i].db, g);
            (forall a :: Registers(h, g, a) ==> a <= applied)
            && (applied == [] || Registers(h, g, applied))
            && LastVersion(states[i].db, g) == |applied| - 1
  {
    ConcurrentIsSerial(states, events, i, g);
    AppliedIsLongest(states[i].history, g);
  }

  /** At most one migrator is past the lock, and it alone touches the log and versions. */
  lemma OneAtATime(states: seq<State>, events: seq<Event>, i: nat, p: Pid, q: Pid)
    requires IsBehaviour(states, events) && i < |states|
    requires p in states[i].procs && HoldsLock(states[i].procs[p])
    requires q in states[i].procs && HoldsLock(states[i].procs[q])
    ensures p == q
  {
    BehaviourKeepsInv(states, events, i);
  }

  ghost predicate Grows(s: State, s': State, g: Group) {
    s.db.log <= s'.db.log && s.history <= s'.history && LastVersion(s.db, g) <= LastVersion(s'.db, g)
  }

  lemma CommitGrows(s: State, s': State, pid: Pid, g: Group)
    requires Inv(s) && Commits(s, s', pid)
    ensures Grows(s, s', g)
  {
    CommitIsSerial(s, s.procs[pid]);
    SerialExact(s.history, g);
    SerialExact(s'.history, g);
    assert s'.history[..|s'.history| - 1] == s.history;
  }

  lemma StepGrows(s: State, s': State, pid: Pid, step: Step, g: Group)
    requires Inv(s) && Next(s, s', pid, step)
    ensures Grows(s, s', g)
  {
    if step.Commit? { CommitGrows(s, s', pid, g); }
  }

  lemma GrowsOn(a: State, b: State, c: State, pid: Pid, step: Step, g: Group)
    requires Grows(a, b, g) && Inv(b) && Next(b, c, pid, step)
    ensures Grows(a, c, g)
  {
    StepGrows(b, c, pid, step, g);
  }

  lemma BehaviourStep(states: seq<State>, events: seq<Event>, i: nat)
    requires IsBehaviour(states, events) && i < |events|
    ensures Inv(states[i]) && Next(states[i], states[i + 1], events[i].pid, events[i].step)
  {
    BehaviourKeepsInv(states, events, i);
  }

  /** No behaviour ever lowers a version or takes an entry back from the committed log,
      and the history of committed runs only grows. */
  lemma {:induction false} CommittedOnlyGrows(states: seq<State>, events: seq<Event>, i: nat, j: nat, g: Group)
    requires IsBehaviour(states, events) && i <= j < |states|
    ensures Grows(states[i], states[j], g)
    decreases j - i
  {
    if i < j {
      var k := j - 1;
      CommittedOnlyGrows(states, events, i, k, g);
      BehaviourStep(states, events, k);
      GrowsOn(states[i], states[k], states[j], events[k].pid, events[k].step, g);
    }
  }

  /** Each committed statement was put in the log by a committed run in which everything
      its group depends on was in the log before it. */
  lemma CommittedInDependencyOrder(states: seq<State>, events: seq<Event>, i: nat, k: nat)
    requires IsBehaviour(states, events) && i < |states| && k < |states[i].db.log|
    ensures var h := states[i].history;
            exists n :: 0 <= n < |h| && AppliedInOrder(h[..n], h[n], states[i].db.log, k)
  {
    BehaviourKeepsInv(states, events, i);
    DependenciesFirstInLog(states[i].history, k);
  }

  /** When a statement of a group executes, every statement of everything the group
      depends on, directly or not, has been applied, by an earlier run or earlier in the
      same transaction. */
  lemma DependenciesBeforeStatement(states: seq<State>, events: seq<Event>, i: nat)
    requires IsBehaviour(states, events) && i < |events| && events[i].step.ExecStmt?
    ensures var s, pid := states[i], events[i].pid;
            pid in s.procs && s.procs[pid].pc.Applying? && s.procs[pid].pc.n < |s.procs[pid].run.order|
            && var p := s.procs[pid];
               DependenciesApplied(s.history, p.run, p.run.order[p.pc.n], Visible(s.db, p).log)
  {
    var s := states[i];
    assert Next(s, states[i + 1], events[i].pid, events[i].step);
    BehaviourKeepsInv(states, events, i);
    ReadyToApply(s, s.procs[events[i].pid]);
  }

  lemma ReadyToApply(s: State, p: Proc)
    requires AllValid(s.history) && s.db == Serial(s.history) && InProgress(s.db, p) && p.pc.Applying?
    ensures DependenciesApplied(s.history, p.run, p.run.order[p.pc.n], Visible(s.db, p).log)
  {
    var before := RunGroups(s.db, p.run.order[..p.pc.n], p.run.lists);
    DependenciesReady(s.history, p.run, p.pc.n);
    MoreIsApplied(s.history, p.run, p.run.order[p.pc.n], before.log, Visible(s.db, p).log);
  }

  // ---------- progress ----------

  /** The step that the lock holder takes next if nothing fails. */
  function NextStep(p: Proc): Step {
    match p.pc
    case Root(_) => ExecRoot
    case NextGroup(n) => if n < |p.run.order| then ReadVersion else Commit
    case Applying(n, i) => if i < |ListAt(p, n)| then ExecStmt else SetVersion
    case _ => AcquireLock
  }

  ghost function Moved(s: State, pid: Pid): State
    requires pid in s.procs
  {
    var p := s.procs[pid];
    if NextStep(p).Commit? then
      State(Visible(s.db, p), None, s.procs[pid := p.(pc := Outside)], s.history + [p.run])
    else match Local(s.db, p, NextStep(p))
         case Some(p') => s.(procs := s.procs[pid := p'])
         case None => s
  }

  /** Whoever holds the lock is never stuck: a step other than Abort is enabled. */
  lemma HolderCanMove(s: State, pid: Pid)
    requires Inv(s) && s.lock == Some(pid)
    ensures pid in s.procs && !NextStep(s.procs[pid]).Abort?
    ensures Next(s, Moved(s, pid), pid, NextStep(s.procs[pid])) && Inv(Moved(s, pid))
  {
    var p := s.procs[pid];
    assert InProgress(s.db, p);
    StepKeepsInv(s, Moved(s, pid), pid, NextStep(p));
  }

  /** In every reachable state in which the lock is held, a step other than Abort is enabled
      for its holder: nothing deadlocks. */
  lemma NeverStuck(states: seq<State>, events: seq<Event>, i: nat)
    requires IsBehaviour(states, events) && i < |states| && states[i].lock.Some?
    ensures exists t: State, step: Step :: !step.Abort? && Next(states[i], t, states[i].lock.value, step)
  {
    BehaviourKeepsInv(states, events, i);
    HolderCanMove(states[i], states[i].lock.value);
  }

  /** How far the lock holder still has to go, as a lexicographic triple. */
  function Left0(p: Proc): nat {
    match p.pc
    case NextGroup(n) => if n <= |p.run.order| then |p.run.order| - n else 0
    case Applying(n, _) => if n <= |p.run.order| then |p.run.order| - n else 0
    case _ => |p.run.order| + 1
  }

  function Left1(p: Proc): nat {
    match p.pc
    case Root(done) => if done < ROOT_STATEMENTS then ROOT_STATEMENTS - done else 0
    case NextGroup(_) => 1
    case _ => 0
  }

  function Left2(p: Proc): nat {
    match p.pc
    case Applying(n, i) => if i <= |ListAt(p, n)| then |ListAt(p, n)| - i else 0
    case _ => 0
  }

  lemma FollowsStep(s: State, e: Event, states: seq<State>, events: seq<Event>)
    requires Follows(states, events) && Next(s, states[0], e.pid, e.step)
    ensures Follows([s] + states, [e] + events)
  {
    var all, es := [s] + states, [e] + events;
    forall i | 0 <= i < |es| ensures Next(all[i], all[i + 1], es[i].pid, es[i].step) {
      if i > 0 { assert all[i] == states[i - 1] && es[i] == events[i - 1]; }
    }
  }

  ghost predicate NoAbort(events: seq<Event>) {
    forall i :: 0 <= i < |events| ==> !events[i].step.Abort?
  }

  /** From s the migrator pid, on its own, gets to the state t in which it has committed. */
  ghost predicate CommitsAlone(s: State, pid: Pid, t: State, events: seq<Event>) {
    && pid in s.procs && NoAbort(events) && (forall i :: 0 <= i < |events| ==> events[i].pid == pid)
    && t.history == s.history + [s.procs[pid].run] && t.lock.None?
    && t.procs.Keys == s.procs.Keys && forall q :: q in s.procs && q != pid ==> t.procs[q] == s.procs[q]
  }

  /** An execution from s to a state in which pid has committed, with steps of pid alone. */
  ghost predicate CommitRun(s: State, pid: Pid, states: seq<State>, events: seq<Event>) {
    && Follows(states, events) && states[0] == s && Inv(states[|states| - 1])
    && CommitsAlone(s, pid, states[|states| - 1], events)
  }

  lemma CommitsNow(s: State, pid: Pid)
    requires Inv(s) && s.lock == Some(pid) && NextStep(s.procs[pid]).Commit?
    ensures CommitRun(s, pid, [s, Moved(s, pid)], [Event(pid, Commit)])
  {
    HolderCanMove(s, pid);
  }

  lemma AloneLater(s: State, pid: Pid, t: State, events: seq<Event>)
    requires Inv(s) && s.lock == Some(pid) && !NextStep(s.procs[pid]).Commit?
    requires CommitsAlone(Moved(s, pid), pid, t, events)
    ensures CommitsAlone(s, pid, t, [Event(pid, NextStep(s.procs[pid]))] + events)
  {
    HolderMeasure(s, pid);
    var es := [Event(pid, NextStep(s.procs[pid]))] + events;
    forall i | 0 <= i < |es| ensures es[i].pid == pid && !es[i].step.Abort? {
      if i > 0 { assert es[i] == events[i - 1]; }
    }
  }

  lemma CommitsLater(s: State, pid: Pid, states: seq<State>, events: seq<Event>)
    requires Inv(s) && s.lock == Some(pid) && !NextStep(s.procs[pid]).Commit?
    requires CommitRun(Moved(s, pid), pid, states, events)
    ensures CommitRun(s, pid, [s] + states, [Event(pid, NextStep(s.procs[pid]))] + events)
  {
    var e, all := Event(pid, NextStep(s.procs[pid])), [s] + states;
    assert Next(s, states[0], pid, e.step) by { HolderCanMove(s, pid); }
    FollowsStep(s, e, states, events);
    AloneLater(s, pid, states[|states| - 1], events);
    assert all[|all| - 1] == states[|states| - 1];
  }

  /** The lock holder has a continuation that commits: its own remaining steps. */
  lemma {:induction false} HolderCommits(s: State, pid: Pid) returns (states: seq<State>, events: seq<Event>)
    requires Inv(s) && s.lock == Some(pid)
    ensures CommitRun(s, pid, states, events)
    decreases Left0(s.procs[pid]), Left1(s.procs[pid]), Left2(s.procs[pid])
  {
    if NextStep(s.procs[pid]).Commit? {
      CommitsNow(s, pid);
      states, events := [s, Moved(s, pid)], [Event(pid, Commit)];
    } else {
      HolderStays(s, pid);
      HolderMeasure(s, pid);
      states, events := HolderCommits(Moved(s, pid), pid);
      CommitsLater(s, pid, states, events);
      states, events := [s] + states, [Event(pid, NextStep(s.procs[pid]))] + events;
    }
  }

  lemma HolderStays(s: State, pid: Pid)
    requires Inv(s) && s.lock == Some(pid) && !NextStep(s.procs[pid]).Commit?
    ensures Inv(Moved(s, pid)) && Moved(s, pid).lock == Some(pid)
  {
    HolderCanMove(s, pid);
  }

  lemma HolderMeasure(s: State, pid: Pid)
    requires Inv(s) && s.lock == Some(pid) && !NextStep(s.procs[pid]).Commit?
    ensures var p, p' := s.procs[pid], Moved(s, pid).procs[pid];
            p'.run == p.run
            && (Left0(p') < Left0(p)
                || (Left0(p') == Left0(p) && Left1(p') < Left1(p))
                || (Left0(p') == Left0(p) && Left1(p') == Left1(p) && Left2(p') < Left2(p)))
  {
    HolderCanMove(s, pid);
    assert InProgress(s.db, s.procs[pid]);
  }

  lemma AcquireFollows(s: State, pid: Pid) returns (t: State)
    requires Inv(s) && s.lock.None? && pid in s.procs && s.procs[pid].pc.Begun?
    ensures Acquires(s, t, pid) && Inv(t)
  {
    t := s.(lock := Some(pid), procs := s.procs[pid := s.procs[pid].(pc := Root(0))]);
    AcquireKeepsInv(s, t, pid);
  }

  lemma {:induction false} FollowsOn(states: seq<State>, events: seq<Event>, more: seq<State>, es: seq<Event>)
    requires Follows(states, events) && Follows(more, es) && states[|states| - 1] == more[0]
    ensures Follows(states + more[1..], events + es)
    ensures var all := states + more[1..]; all[0] == states[0] && all[|all| - 1] == more[|more| - 1]
    decreases |states|
  {
    if |states| == 1 {
      assert states + more[1..] == more && events + es == es;
    } else {
      assert Follows(states[1..], events[1..]) by {
        forall i | 0 <= i < |events| - 1
          ensures Next(states[1..][i], states[1..][i + 1], events[1..][i].pid, events[1..][i].step)
        {
          assert Next(states[i + 1], states[i + 2], events[i + 1].pid, events[i + 1].step);
        }
      }
      FollowsOn(states[1..], events[1..], more, es);
      assert Next(states[0], states[1], events[0].pid, events[0].step);
      FollowsStep(states[0], events[0], states[1..] + more[1..], events[1..] + es);
      assert states + more[1..] == [states[0]] + (states[1..] + more[1..]);
      assert events + es == [events[0]] + (events[1..] + es);
    }
  }

  /** A way on from s, without any Abort, to a state with this history. */
  ghost predicate LeadsTo(s: State, history: seq<Run>, states: seq<State>, events: seq<Event>) {
    Follows(states, events) && states[0] == s && NoAbort(events) && states[|states| - 1].history == history
  }

  lemma LeadsOn(s: State, h: seq<Run>, states: seq<State>, events: seq<Event>,
                h': seq<Run>, more: seq<State>, es: seq<Event>)
    requires LeadsTo(s, h, states, events) && LeadsTo(states[|states| - 1], h', more, es)
    ensures LeadsTo(s, h', states + more[1..], events + es)
  {
    FollowsOn(states, events, more, es);
  }

  /** A migrator that waits for the lock commits next while the lock is free. */
  lemma WaiterCommitsNext(s: State, pid: Pid) returns (states: seq<State>, events: seq<Event>)
    requires Inv(s) && s.lock.None? && pid in s.procs && s.procs[pid].pc.Begun?
    ensures LeadsTo(s, s.history + [s.procs[pid].run], states, events)
  {
    var t := AcquireFollows(s, pid);
    var more, es := HolderCommits(t, pid);
    FollowsStep(s, Event(pid, AcquireLock), more, es);
    states, events := [s] + more, [Event(pid, AcquireLock)] + es;
    assert states[|states| - 1] == more[|more| - 1];
  }

  /** ... and otherwise after the one that holds it. */
  lemma WaiterCommitsAfter(s: State, pid: Pid, holder: Pid) returns (states: seq<State>, events: seq<Event>)
    requires Inv(s) && s.lock == Some(holder) && holder != pid
    requires pid in s.procs && s.procs[pid].pc.Begun?
    ensures holder in s.procs
    ensures LeadsTo(s, s.history + [s.procs[holder].run] + [s.procs[pid].run], states, events)
  {
    var first, e1 := HolderCommits(s, holder);
    var t := first[|first| - 1];
    var second, e2 := WaiterCommitsNext(t, pid);
    LeadsOn(s, t.history, first, e1, t.history + [s.procs[pid].run], second, e2);
    states, events := first + second[1..], e1 + e2;
  }

  /** The runs that commit before pid is done, if nothing fails: that of the lock holder,
      if it is another, and its own. */
  function Queue(s: State, pid: Pid): seq<Run>
    requires pid in s.procs && (s.lock.Some? ==> s.lock.value in s.procs)
  {
    if s.lock.Some? && s.lock.value != pid then [s.procs[s.lock.value].run] + [s.procs[pid].run]
    else [s.procs[pid].run]
  }

  lemma BegunCanCommitFrom(s: State, pid: Pid) returns (more: seq<State>, es: seq<Event>)
    requires Inv(s) && pid in s.procs && !s.procs[pid].pc.Outside?
    ensures LeadsTo(s, s.history + Queue(s, pid), more, es)
  {
    if s.lock.None? {
      more, es := WaiterCommitsNext(s, pid);
    } else if s.lock == Some(pid) {
      more, es := HolderCommits(s, pid);
    } else {
      more, es := WaiterCommitsAfter(s, pid, s.lock.value);
      var holder := s.procs[s.lock.value].run;
      assert s.history + [holder] + [s.procs[pid].run] == s.history + ([holder] + [s.procs[pid].run]);
    }
  }

  /** In every reachable state, every migrator that has begun has a continuation, without
      any Abort, that commits it: at once if it holds the lock or the lock is free, and
      otherwise after the one that holds it. */
  lemma BegunCanCommit(states: seq<State>, events: seq<Event>, pid: Pid)
    returns (more: seq<State>, es: seq<Event>)
    requires IsBehaviour(states, events)
    requires var s := states[|states| - 1]; pid in s.procs && !s.procs[pid].pc.Outside?
    ensures var s := states[|states| - 1];
            (s.lock.Some? ==> s.lock.value in s.procs) && LeadsTo(s, s.history + Queue(s, pid), more, es)
  {
    BehaviourKeepsInv(states, events, |states| - 1);
    more, es := BegunCanCommitFrom(states[|states| - 1], pid);
  }
}
