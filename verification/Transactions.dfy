/** pgdb.Tx, EnsureTx, RequireTx and EnsureQueryer: nested all-or-nothing execution and
    the bounded retry loop, over a transaction that is only assumed to buffer its writes
    until Commit and to refuse everything once it is closed. */
module Transactions {
  import opened Wrappers
  import opened Errors
  import opened Int64

  type Write = string

  /** What the server answers to a statement of an open transaction. */
  datatype Reply =
    | Done
    | Refused(e: Error)    // the statement fails, the transaction stays usable
    | Poisoned(e: Error)   // the server aborts the transaction

  /** One behaviour of the function handed to Tx: the statements it sends and the nested
      calls it makes, going on as it likes after each success and after each error. */
  datatype Body =
    | ReturnNil
    | ReturnNew(e: Error)    // an error of its own
    | ReturnLast             // `return err` after the latest call
    | Exec(w: Write, reply: Reply, onOk: Body, onErr: Body)
    | Ensure(inner: Body, onOk: Body, onErr: Body)     // EnsureTx
    | Require(inner: Body, onOk: Body, onErr: Body)    // RequireTx
    | Queryer(inner: Body, onOk: Body, onErr: Body)    // EnsureQueryer

  datatype Status = Open | Aborted | Closed

  const ERR_TX_DONE := Plain("transaction has already been committed or rolled back")
  const ERR_ABORTED := Sql("25P02")
  const ERR_COMMIT_ROLLBACK := Plain("commit unexpectedly resulted in rollback")
  const ERR_NO_TX := Plain("no current transaction")
  const ERR_CONTEXT_DONE := Plain("context done")

  /** The faults of one transaction that its body does not choose. */
  datatype Faults = Faults(commit: Option<Error>, rollback: Option<Error>)

  // ---------- the transaction state, as a function ----------

  datatype TxState = TxState(status: Status, pending: seq<Write>)

  function ExecStep(s: TxState, w: Write, reply: Reply): (TxState, Option<Error>) {
    match s.status
    case Closed => (s, Some(ERR_TX_DONE))
    case Aborted => (s, Some(ERR_ABORTED))
    case Open =>
      match reply
      case Done => (s.(pending := s.pending + [w]), None)
      case Refused(e) => (s, Some(e))
      case Poisoned(e) => (s.(status := Aborted), Some(e))
  }

  function RollbackStep(s: TxState, f: Faults): (TxState, Option<Error>) {
    if s.status == Closed then (s, Some(ERR_TX_DONE)) else (s.(status := Closed), f.rollback)
  }

  /** What EnsureTx and RequireTx do with the error of their function when the context
      already holds a transaction. */
  function Guarded(r: (TxState, Option<Error>), f: Faults): (TxState, Option<Error>) {
    match r.1
    case None => r
    case Some(e) =>
      var (s, rberr) := RollbackStep(r.0, f);
      (s, Some(Join(e, rberr)))
  }

  function RunBody(p: Body, s: TxState, last: Option<Error>, f: Faults): (TxState, Option<Error>) {
    match p
    case ReturnNil => (s, None)
    case ReturnNew(e) => (s, Some(e))
    case ReturnLast => (s, last)
    case Exec(w, reply, onOk, onErr) =>
      var (s1, e1) := ExecStep(s, w, reply);
      RunBody(if e1 == None then onOk else onErr, s1, e1, f)
    case Ensure(inner, onOk, onErr) =>
      var (s1, e1) := Guarded(RunBody(inner, s, None, f), f);
      RunBody(if e1 == None then onOk else onErr, s1, e1, f)
    case Require(inner, onOk, onErr) =>
      var (s1, e1) := Guarded(RunBody(inner, s, None, f), f);
      RunBody(if e1 == None then onOk else onErr, s1, e1, f)
    case Queryer(inner, onOk, onErr) =>
      var (s1, e1) := RunBody(inner, s, None, f);
      RunBody(if e1 == None then onOk else onErr, s1, e1, f)
  }

  // ---------- the intent of a body, with no transaction in sight ----------

  /** What a body does if no transaction ever dies under it: the writes that succeed, in
      order; the error it returns; and whether, anywhere inside, an EnsureTx or RequireTx
      function returned an error or the server aborted. */
  datatype Intent = Intent(writes: seq<Write>, err: Option<Error>, doomed: bool)

  function Then(a: Intent, b: Intent): Intent {
    Intent(a.writes + b.writes, b.err, a.doomed || b.doomed)
  }

  function Intends(p: Body, last: Option<Error>): Intent {
    match p
    case ReturnNil => Intent([], None, false)
    case ReturnNew(e) => Intent([], Some(e), false)
    case ReturnLast => Intent([], last, false)
    case Exec(w, reply, onOk, onErr) =>
      var i := Replied(w, reply);
      Then(i, Intends(if i.err.Some? then onErr else onOk, i.err))
    case Ensure(inner, onOk, onErr) =>
      var i := Intends(inner, None);
      Then(i.(doomed := i.doomed || i.err.Some?), Intends(if i.err.Some? then onErr else onOk, i.err))
    case Require(inner, onOk, onErr) =>
      var i := Intends(inner, None);
      Then(i.(doomed := i.doomed || i.err.Some?), Intends(if i.err.Some? then onErr else onOk, i.err))
    case Queryer(inner, onOk, onErr) =>
      var i := Intends(inner, None);
      Then(i, Intends(if i.err.Some? then onErr else onOk, i.err))
  }

  function Replied(w: Write, reply: Reply): Intent {
    match reply
    case Done => Intent([w], None, false)
    case Refused(e) => Intent([], Some(e), false)
    case Poisoned(e) => Intent([], Some(e), true)
  }

  /** A dead transaction stays dead, whatever the body does. */
  lemma {:induction false} DeadStaysDead(p: Body, s: TxState, last: Option<Error>, f: Faults)
    requires s.status != Open
    ensures RunBody(p, s, last, f).0.status != Open
  {
    match p
    case ReturnNil =>
    case ReturnNew(_) =>
    case ReturnLast =>
    case Exec(w, reply, onOk, onErr) =>
      var (s1, e1) := ExecStep(s, w, reply);
      DeadStaysDead(onErr, s1, e1, f);
    case Ensure(inner, onOk, onErr) =>
      DeadStaysDead(inner, s, None, f);
      var (s1, e1) := Guarded(RunBody(inner, s, None, f), f);
      DeadStaysDead(if e1 == None then onOk else onErr, s1, e1, f);
    case Require(inner, onOk, onErr) =>
      DeadStaysDead(inner, s, None, f);
      var (s1, e1) := Guarded(RunBody(inner, s, None, f), f);
      DeadStaysDead(if e1 == None then onOk else onErr, s1, e1, f);
    case Queryer(inner, onOk, onErr) =>
      DeadStaysDead(inner, s, None, f);
      var (s1, e1) := RunBody(inner, s, None, f);
      DeadStaysDead(if e1 == None then onOk else onErr, s1, e1, f);
  }

  ghost predicate Realises(r: (TxState, Option<Error>), before: TxState, i: Intent) {
    if i.doomed then r.0.status != Open
    else r == (TxState(Open, before.pending + i.writes), i.err)
  }

  /** The continuation of a body realises its intent after what came before it. */
  lemma {:induction false} RealisesThen(p: Body, r: (TxState, Option<Error>), before: TxState, i: Intent, f: Faults)
    requires Realises(r, before, i)
    ensures Realises(RunBody(p, r.0, r.1, f), before, Then(i, Intends(p, i.err)))
    decreases p, 2
  {
    if i.doomed {
      DeadStaysDead(p, r.0, r.1, f);
    } else {
      RunRealisesIntent(p, r.0, r.1, f);
      assert before.pending + i.writes + Intends(p, i.err).writes
          == before.pending + (i.writes + Intends(p, i.err).writes);
    }
  }

  /** In an open transaction a body leaves either the transaction dead, exactly when its
      intent is doomed, or all of its intended writes pending, and returns the error it
      intends. */
  lemma {:induction false} RunRealisesIntent(p: Body, s: TxState, last: Option<Error>, f: Faults)
    requires s.status == Open
    ensures Realises(RunBody(p, s, last, f), s, Intends(p, last))
    decreases p, 1
  {
    match p
    case ReturnNil => assert s.pending + [] == s.pending;
    case ReturnNew(_) => assert s.pending + [] == s.pending;
    case ReturnLast => assert s.pending + [] == s.pending;
    case Exec(w, reply, onOk, onErr) =>
      var r := ExecStep(s, w, reply);
      assert s.pending + [] == s.pending;
      RealisesThen(if reply.Done? then onOk else onErr, r, s, Replied(w, reply), f);
    case Ensure(inner, onOk, onErr) =>
      InnerRealises(p, inner, onOk, onErr, s, f);
    case Require(inner, onOk, onErr) =>
      InnerRealises(p, inner, onOk, onErr, s, f);
    case Queryer(inner, onOk, onErr) =>
      RunRealisesIntent(inner, s, None, f);
      var r := RunBody(inner, s, None, f);
      var i := Intends(inner, None);
      if i.doomed {
        DeadStaysDead(if r.1 == None then onOk else onErr, r.0, r.1, f);
      } else {
        RealisesThen(if r.1 == None then onOk else onErr, r, s, i, f);
      }
  }

  lemma {:induction false} InnerRealises(p: Body, inner: Body, onOk: Body, onErr: Body, s: TxState, f: Faults)
    requires s.status == Open
    requires p == Ensure(inner, onOk, onErr) || p == Require(inner, onOk, onErr)
    ensures Realises(RunBody(p, s, None, f), s, Intends(p, None))
    decreases p, 0
  {
    RunRealisesIntent(inner, s, None, f);
    var i := Intends(inner, None);
    var r := Guarded(RunBody(inner, s, None, f), f);
    var k := if r.1 == None then onOk else onErr;
    if i.doomed || i.err.Some? {
      DeadStaysDead(k, r.0, r.1, f);
    } else {
      RealisesThen(k, r, s, i, f);
    }
  }

  // ---------- one attempt ----------

  /** One pass of Tx's loop: what its environment does in that pass. */
  datatype Attempt = Attempt(
    begin: Option<Error>,   // error of BeginTx
    body: Body,
    faults: Faults,
    jitter: nat,            // drawn by calculateBackoff, should it be called
    cancelled: bool         // the context is done before the backoff elapses
  )

  function CommitStep(s: TxState, f: Faults): Option<Error> {
    match s.status
    case Closed => Some(ERR_TX_DONE)
    case Aborted => Some(ERR_COMMIT_ROLLBACK)
    case Open => f.commit
  }

  /** The error doTx returns, and the writes it installs. */
  function AttemptOutcome(a: Attempt): (seq<Write>, Option<Error>) {
    if a.begin.Some? then ([], a.begin)
    else
      var (s, e) := RunBody(a.body, TxState(Open, []), None, a.faults);
      match e
      case Some(_) => ([], Guarded((s, e), a.faults).1)
      case None => (if CommitStep(s, a.faults) == None then s.pending else [], CommitStep(s, a.faults))
  }

  /** What decides an attempt, read off the intent of its body alone. */
  predicate Commits(a: Attempt) {
    var i := Intends(a.body, None);
    a.begin == None && i.err.None? && !i.doomed && a.faults.commit == None
  }

  /** All or nothing: doTx returns nil exactly when the transaction began, the body
      returned nil, no EnsureTx or RequireTx function anywhere inside it returned an
      error, the server did not abort and the commit went through; then all the writes
      of the body are installed in order, and otherwise none is. */
  lemma AllOrNothing(a: Attempt)
    ensures AttemptOutcome(a).1 == None <==> Commits(a)
    ensures AttemptOutcome(a).0 == if Commits(a) then Intends(a.body, None).writes else []
  {
    RunRealisesIntent(a.body, TxState(Open, []), None, a.faults);
  }

  /** Which error doTx returns: that of BeginTx; the one its body intends, joined with that
      of the rollback; that of the commit; and, when a transaction that died under it is
      committed all the same, one that says so. */
  lemma AttemptError(a: Attempt)
    ensures a.begin.Some? ==> AttemptOutcome(a).1 == a.begin
    ensures var i := Intends(a.body, None);
            a.begin.None? && !i.doomed ==>
              AttemptOutcome(a).1 == match i.err
                                     case Some(e) => Some(Joined(e, a.faults.rollback))
                                     case None => a.faults.commit
    ensures a.begin.None? && Intends(a.body, None).doomed
            && RunBody(a.body, TxState(Open, []), None, a.faults).1.None? ==>
              AttemptOutcome(a).1 == Some(Plain("transaction has already been committed or rolled back"))
              || AttemptOutcome(a).1 == Some(Plain("commit unexpectedly resulted in rollback"))
  {
    RunRealisesIntent(a.body, TxState(Open, []), None, a.faults);
  }

  /** What a dead transaction answers: after an error of the server all statements get
      SQLSTATE 25P02, after a rollback or a commit nothing works any more. */
  lemma DeadAnswers(s: TxState, w: Write, reply: Reply, f: Faults)
    ensures s.status == Aborted ==> ExecStep(s, w, reply) == (s, Some(Sql("25P02")))
                                    && CommitStep(s, f) == Some(Plain("commit unexpectedly resulted in rollback"))
    ensures s.status == Closed ==>
              var done := Some(Plain("transaction has already been committed or rolled back"));
              ExecStep(s, w, reply) == (s, done) && RollbackStep(s, f) == (s, done) && CommitStep(s, f) == done
    ensures s.status != Closed ==> RollbackStep(s, f) == (TxState(Closed, s.pending), f.rollback)
  {
  }

  // ---------- an error that is passed on ----------

  /** Every statement succeeds, and so does every function. */
  predicate Clean(p: Body) {
    match p
    case ReturnNil => true
    case ReturnNew(_) => false
    case ReturnLast => true
    case Exec(_, reply, onOk, _) => reply.Done? && Clean(onOk)
    case Ensure(inner, onOk, _) => Clean(inner) && Clean(onOk)
    case Require(inner, onOk, _) => Clean(inner) && Clean(onOk)
    case Queryer(inner, onOk, _) => Clean(inner) && Clean(onOk)
  }

  /** The first thing that fails fails with e, a statement or a function of its own accord,
      and all the functions it happens in return that error. */
  predicate PassesOn(p: Body, e: Error) {
    match p
    case ReturnNil => false
    case ReturnNew(err) => err == e
    case ReturnLast => false
    case Exec(_, reply, onOk, onErr) => if reply.Done? then PassesOn(onOk, e) else reply.e == e && onErr.ReturnLast?
    case Ensure(inner, onOk, onErr) =>
      (PassesOn(inner, e) && onErr.ReturnLast?) || (Clean(inner) && PassesOn(onOk, e))
    case Require(inner, onOk, onErr) =>
      (PassesOn(inner, e) && onErr.ReturnLast?) || (Clean(inner) && PassesOn(onOk, e))
    case Queryer(inner, onOk, onErr) =>
      (PassesOn(inner, e) && onErr.ReturnLast?) || (Clean(inner) && PassesOn(onOk, e))
  }

  function StateOf(e: Option<Error>): string {
    match e case None => "" case Some(x) => SQLState(x)
  }

  lemma {:induction false} CleanSucceeds(p: Body, s: TxState, f: Faults)
    requires Clean(p) && s.status == Open
    ensures var r := RunBody(p, s, None, f); r.0.status == Open && r.1 == None
  {
    match p
    case ReturnNil =>
    case ReturnLast =>
    case Exec(w, reply, onOk, _) => CleanSucceeds(onOk, ExecStep(s, w, reply).0, f);
    case Ensure(inner, onOk, _) =>
      CleanSucceeds(inner, s, f);
      CleanSucceeds(onOk, RunBody(inner, s, None, f).0, f);
    case Require(inner, onOk, _) =>
      CleanSucceeds(inner, s, f);
      CleanSucceeds(onOk, RunBody(inner, s, None, f).0, f);
    case Queryer(inner, onOk, _) =>
      CleanSucceeds(inner, s, f);
      CleanSucceeds(onOk, RunBody(inner, s, None, f).0, f);
  }

  /** r has failed with e, or with e joined with what the one rollback that was made, if any,
      returned, and what later ones did. */
  ghost predicate FailedWith(r: (TxState, Option<Error>), e: Error, f: Faults) {
    && r.1.Some? && Is(r.1.value, e)
    && if FirstSql(e).Some? then FirstSql(r.1.value) == FirstSql(e)
       else if r.0.status == Closed then SQLState(r.1.value) == StateOf(f.rollback)
       else FirstSql(r.1.value).None?
  }

  lemma GuardedFails(r: (TxState, Option<Error>), e: Error, f: Faults)
    requires FailedWith(r, e, f)
    ensures FailedWith(Guarded(r, f), e, f) && Guarded(r, f).0.status == Closed
  {
    assert FirstSql(ERR_TX_DONE).None?;
  }

  /** However deep in nested calls it happens, an error that is passed on is what comes out,
      also from a transaction that died of it. */
  lemma {:induction false} PassesOnError(p: Body, s: TxState, last: Option<Error>, e: Error, f: Faults)
    requires PassesOn(p, e) && s.status == Open
    ensures FailedWith(RunBody(p, s, last, f), e, f)
    decreases p, 1
  {
    match p
    case ReturnNew(_) =>
    case Exec(w, reply, onOk, _) =>
      if reply.Done? { PassesOnError(onOk, ExecStep(s, w, reply).0, None, e, f); }
    case Ensure(inner, onOk, onErr) => InnerPassesOn(p, inner, onOk, onErr, s, e, f);
    case Require(inner, onOk, onErr) => InnerPassesOn(p, inner, onOk, onErr, s, e, f);
    case Queryer(inner, onOk, onErr) => InnerPassesOn(p, inner, onOk, onErr, s, e, f);
  }

  lemma {:induction false} InnerPassesOn(p: Body, inner: Body, onOk: Body, onErr: Body, s: TxState, e: Error, f: Faults)
    requires p == Ensure(inner, onOk, onErr) || p == Require(inner, onOk, onErr) || p == Queryer(inner, onOk, onErr)
    requires PassesOn(p, e) && s.status == Open
    ensures FailedWith(RunBody(p, s, None, f), e, f)
    decreases p, 0
  {
    var r := RunBody(inner, s, None, f);
    if PassesOn(inner, e) && onErr.ReturnLast? {
      PassesOnError(inner, s, None, e, f);
      GuardedFails(r, e, f);
    } else {
      CleanSucceeds(inner, s, f);
      PassesOnError(onOk, r.0, None, e, f);
    }
  }

  /** The SQLSTATE of the error of an attempt whose body passes an error on, or is clean, or
      that does not begin: that of the error, if it has one, and otherwise that of the
      rollback. */
  lemma AttemptState(a: Attempt, e: Error)
    requires a.begin == Some(e) || (a.begin.None? && PassesOn(a.body, e))
             || (a.begin.None? && Clean(a.body) && a.faults.commit == Some(e))
    ensures AttemptOutcome(a).1.Some? && Is(AttemptOutcome(a).1.value, e)
    ensures SQLState(AttemptOutcome(a).1.value)
         == if FirstSql(e).Some? then SQLState(e)
            else if a.begin.None? && PassesOn(a.body, e) then StateOf(a.faults.rollback)
            else ""
  {
    var s := TxState(Open, []);
    if a.begin.None? && PassesOn(a.body, e) {
      PassesOnError(a.body, s, None, e, a.faults);
      GuardedFails(RunBody(a.body, s, None, a.faults), e, a.faults);
    } else if a.begin.None? {
      CleanSucceeds(a.body, s, a.faults);
    }
  }

  // ---------- the retry loop ----------

  const MAX_ATTEMPTS := 4
  const MILLISECOND := 1_000_000
  const BASE_BACKOFF := 50 * MILLISECOND
  const MAX_BACKOFF := 500 * MILLISECOND
  const MAX_JITTER := 50 * MILLISECOND

  function CalculateBackoff(attemptMinusOne: nat, jitter: nat): nat {
    (if BASE_BACKOFF * Pow2(attemptMinusOne) <= MAX_BACKOFF then BASE_BACKOFF * Pow2(attemptMinusOne)
     else MAX_BACKOFF) + jitter
  }

  type Env = nat -> Attempt

  /** The n-th attempt (from 0) failed in a way the loop wants to retry. */
  predicate WantsRetry(retry: bool, env: Env, n: nat) {
    retry && n + 1 < MAX_ATTEMPTS && AttemptOutcome(env(n)).1.Some? && IsDeadlock(AttemptOutcome(env(n)).1.value)
  }

  /** ... and the backoff elapses, so it is retried. */
  predicate Retries(retry: bool, env: Env, n: nat) {
    WantsRetry(retry, env, n) && !env(n).cancelled
  }

  /** The server answers with SQLSTATE c: to BeginTx, to the commit, or, refusing it or
      aborting the transaction, to the first statement that fails, whose error the body
      passes on. */
  predicate AnswersWith(a: Attempt, c: string) {
    || a.begin == Some(Sql(c))
    || (a.begin.None? && PassesOn(a.body, Sql(c)))
    || (a.begin.None? && Clean(a.body) && a.faults.commit == Some(Sql(c)))
  }

  /** Such an attempt is made again exactly for a serialization failure (40001) or a
      deadlock (40P01), if that was asked for, attempts are left and the context is not
      done: whatever the rollback says. */
  lemma DeadlockIsRetried(retry: bool, env: Env, n: nat, c: string)
    requires AnswersWith(env(n), c)
    ensures AttemptOutcome(env(n)).1.Some? && SQLState(AttemptOutcome(env(n)).1.value) == c
    ensures Retries(retry, env, n) <==> (c == "40001" || c == "40P01") && retry && n + 1 < 4 && !env(n).cancelled
  {
    AttemptState(env(n), Sql(c));
  }

  /** An error without an SQLSTATE that the body passes on is retried when the rollback fails
      with such a code. */
  lemma RollbackIsRetried(retry: bool, env: Env, n: nat, msg: string)
    requires env(n).begin.None? && PassesOn(env(n).body, Plain(msg))
    ensures Retries(retry, env, n)
        <==> (StateOf(env(n).faults.rollback) == "40001" || StateOf(env(n).faults.rollback) == "40P01")
             && retry && n + 1 < 4 && !env(n).cancelled
  {
    AttemptState(env(n), Plain(msg));
  }

  /** A deadlock that would be made again, had the context not ended in the meantime, is
      answered with the error of the context; the last one with its own. */
  lemma DeadlockGivenUp(retry: bool, env: Env, n: nat, c: string)
    requires AnswersWith(env(n), c) && (c == "40001" || c == "40P01") && StopsAfter(retry, env, n + 1)
    ensures TxOutcome(retry, env, n + 1).1
         == if retry && n + 1 < 4 then Some(Plain("context done")) else AttemptOutcome(env(n)).1
  {
    DeadlockIsRetried(retry, env, n, c);
  }

  /** 50, 100 and 200 milliseconds before the second, third and fourth attempt, never more
      than 500, and what jitter adds to it. */
  lemma BackoffSchedule(attempt: nat, jitter: nat)
    ensures attempt < 3 ==>
              CalculateBackoff(attempt, jitter)
              == (if attempt == 0 then 50_000_000 else if attempt == 1 then 100_000_000 else 200_000_000) + jitter
    ensures CalculateBackoff(attempt, jitter) <= 500_000_000 + jitter
    ensures attempt >= 4 ==> CalculateBackoff(attempt, jitter) == 500_000_000 + jitter
  {
    assert Pow2(0) == 1 && Pow2(1) == 2 && Pow2(2) == 4 && Pow2(3) == 8 && Pow2(4) == 16;
    if attempt >= 4 { Pow2Grows(attempt); }
  }

  lemma {:induction false} Pow2Grows(n: nat)
    requires n >= 4
    ensures Pow2(n) >= 16
  {
    if n > 4 { Pow2Grows(n - 1); } else { assert Pow2(0) == 1 && Pow2(1) == 2 && Pow2(2) == 4 && Pow2(3) == 8; }
  }

  function TotalBackoff(env: Env, n: nat): nat {
    if n == 0 then 0 else TotalBackoff(env, n - 1) + CalculateBackoff(n - 1, env(n - 1).jitter)
  }

  /** So a call waits 50, 150 or 350 milliseconds in all for its second, third and fourth
      attempt, and what jitter adds. */
  lemma TotalSchedule(env: Env)
    ensures TotalBackoff(env, 0) == 0 && TotalBackoff(env, 1) == 50_000_000 + env(0).jitter
    ensures TotalBackoff(env, 2) == 150_000_000 + env(0).jitter + env(1).jitter
    ensures TotalBackoff(env, 3) == 350_000_000 + env(0).jitter + env(1).jitter + env(2).jitter
  {
    BackoffSchedule(0, env(0).jitter);
    BackoffSchedule(1, env(1).jitter);
    BackoffSchedule(2, env(2).jitter);
  }

  /** The loop makes attempts passes exactly when each but the last is retried. */
  ghost predicate StopsAfter(retry: bool, env: Env, attempts: nat) {
    && attempts >= 1
    && (forall i :: 0 <= i < attempts - 1 ==> Retries(retry, env, i))
    && !Retries(retry, env, attempts - 1)
  }

  /** How many backoffs a call that stopped after some attempts has computed: one for
      each retry, and one more if it was cancelled while waiting. */
  function BackoffsComputed(retry: bool, env: Env, attempts: nat): nat
    requires attempts >= 1
  {
    if WantsRetry(retry, env, attempts - 1) then attempts else attempts - 1
  }

  /** At most 4 attempts, 1 without RetryDeadlock, and under 500ms of waiting in all. */
  lemma RetryIsBounded(retry: bool, env: Env, attempts: nat)
    requires StopsAfter(retry, env, attempts)
    requires forall i :: env(i).jitter < 50_000_000
    ensures attempts <= if retry then 4 else 1
    ensures TotalBackoff(env, BackoffsComputed(retry, env, attempts)) < 500_000_000
  {
    if attempts > 1 { assert Retries(retry, env, attempts - 2); }
    TotalSchedule(env);
  }

  /** The error and the installed writes of a Tx call that stopped after some attempts. */
  function TxOutcome(retry: bool, env: Env, attempts: nat): (seq<Write>, Option<Error>)
    requires attempts >= 1
  {
    var last := AttemptOutcome(env(attempts - 1));
    if WantsRetry(retry, env, attempts - 1) then (last.0, Some(ERR_CONTEXT_DONE)) else last
  }

  /** Tx installs the writes of exactly one body, the last one tried, or nothing at all;
      no failed attempt leaves a trace; and nil means that one attempt committed. */
  lemma TxInstallsOnce(retry: bool, env: Env, attempts: nat)
    requires StopsAfter(retry, env, attempts)
    ensures TxOutcome(retry, env, attempts).1 == None <==> Commits(env(attempts - 1))
    ensures TxOutcome(retry, env, attempts).0
         == if Commits(env(attempts - 1)) then Intends(env(attempts - 1).body, None).writes else []
    ensures forall i :: 0 <= i < attempts - 1 ==> !Commits(env(i)) && AttemptOutcome(env(i)).0 == []
  {
    forall i | 0 <= i < attempts - 1
      ensures !Commits(env(i)) && AttemptOutcome(env(i)).0 == []
    {
      assert Retries(retry, env, i);
      AllOrNothing(env(i));
    }
    AllOrNothing(env(attempts - 1));
  }

  // ---------- the calls themselves ----------

  class Db {
    var store: seq<Write>

    constructor ()
      ensures store == []
    {
      store := [];
    }

    method BeginTx(fault: Option<Error>, faults: Faults) returns (r: Result<Txer, Error>)
      ensures fault.Some? ==> r == Err(fault.value)
      ensures fault.None? ==> r.Ok? && fresh(r.value) && r.value.db == this && r.value.faults == faults
                              && r.value.State() == TxState(Open, [])
    {
      if fault.Some? { return Err(fault.value); }
      var tx := new Txer(this, faults);
      r := Ok(tx);
    }
  }

  class Txer {
    const db: Db
    const faults: Faults
    var status: Status
    var pending: seq<Write>

    function State(): TxState reads this {
      TxState(status, pending)
    }

    constructor (db: Db, faults: Faults)
      ensures this.db == db && this.faults == faults && State() == TxState(Open, [])
    {
      this.db, this.faults, status, pending := db, faults, Open, [];
    }

    method Exec(w: Write, reply: Reply) returns (err: Option<Error>)
      modifies this
      ensures (State(), err) == ExecStep(old(State()), w, reply)
    {
      if status == Closed { return Some(ERR_TX_DONE); }
      if status == Aborted { return Some(ERR_ABORTED); }
      match reply
      case Done => pending := pending + [w]; err := None;
      case Refused(e) => err := Some(e);
      case Poisoned(e) => status := Aborted; err := Some(e);
    }

    method Commit() returns (err: Option<Error>)
      modifies this, db
      ensures err == CommitStep(old(State()), faults) && status == Closed
      ensures db.store == old(db.store) + if err == None then old(pending) else []
    {
      if status == Closed {
        err := Some(ERR_TX_DONE);
      } else if status == Aborted {
        err := Some(ERR_COMMIT_ROLLBACK);
      } else {
        err := faults.commit;
        if err == None {
          db.store := db.store + pending;
        }
      }
      status := Closed;
    }

    method Rollback() returns (err: Option<Error>)
      modifies this
      ensures (State(), err) == RollbackStep(old(State()), faults)
    {
      if status == Closed { return Some(ERR_TX_DONE); }
      status := Closed;
      err := faults.rollback;
    }
  }

  /** The function given to pgdb runs: its statements and its nested calls, whose context
      holds tx. */
  method Run(p: Body, db: Db, tx: Txer, last: Option<Error>) returns (err: Option<Error>)
    modifies tx
    ensures (tx.State(), err) == RunBody(p, old(tx.State()), last, tx.faults)
    decreases 0, p, 0
  {
    match p
    case ReturnNil => err := None;
    case ReturnNew(e) => err := Some(e);
    case ReturnLast => err := last;
    case Exec(w, reply, onOk, onErr) =>
      var e := tx.Exec(w, reply);
      if e == None { err := Run(onOk, db, tx, e); } else { err := Run(onErr, db, tx, e); }
    case Ensure(inner, onOk, onErr) =>
      var e := EnsureTx(tx, db, false, _ => Attempt(None, inner, tx.faults, 0, false));
      if e == None { err := Run(onOk, db, tx, e); } else { err := Run(onErr, db, tx, e); }
    case Require(inner, onOk, onErr) =>
      var e := RequireTx(tx, db, inner);
      if e == None { err := Run(onOk, db, tx, e); } else { err := Run(onErr, db, tx, e); }
    case Queryer(inner, onOk, onErr) =>
      var e := Run(inner, db, tx, None);
      if e == None { err := Run(onOk, db, tx, e); } else { err := Run(onErr, db, tx, e); }
  }

  method DoTx(db: Db, a: Attempt) returns (err: Option<Error>)
    modifies db
    ensures err == AttemptOutcome(a).1
    ensures db.store == old(db.store) + AttemptOutcome(a).0
    decreases 0, a.body, 2
  {
    var r := db.BeginTx(a.begin, a.faults);
    if r.Err? { return Some(r.error); }
    var tx := r.value;
    err := Run(a.body, db, tx, None);
    if err.Some? {
      var rberr := tx.Rollback();
      err := Some(Join(err.value, rberr));
    } else {
      err := tx.Commit();
    }
    var _ := tx.Rollback();
  }

  method Tx(db: Db, retry: bool, env: Env) returns (err: Option<Error>, ghost attempts: nat, ghost backoff: nat)
    modifies db
    ensures StopsAfter(retry, env, attempts)
    ensures backoff == TotalBackoff(env, BackoffsComputed(retry, env, attempts))
    ensures err == TxOutcome(retry, env, attempts).1
    ensures db.store == old(db.store) + TxOutcome(retry, env, attempts).0
    decreases 1, env(0).body, 0
  {
    var n := 0;
    backoff := 0;
    while true
      invariant 0 <= n < MAX_ATTEMPTS
      invariant backoff == TotalBackoff(env, n)
      invariant forall i :: 0 <= i < n ==> Retries(retry, env, i)
      invariant db.store == old(db.store)
      decreases MAX_ATTEMPTS - n
    {
      n := n + 1;
      attempts := n;
      var a := env(n - 1);
      err := DoTx(db, a);
      assert db.store == old(db.store) + AttemptOutcome(a).0;
      if err.Some? && retry && IsDeadlock(err.value) && n < MAX_ATTEMPTS {
        AllOrNothing(a);
        backoff := backoff + CalculateBackoff(n - 1, a.jitter);
        if a.cancelled {
          err := Some(ERR_CONTEXT_DONE);
          return;
        }
        continue;
      }
      return;
    }
  }

  /** The context holds the transaction tx, or none. */
  method EnsureTx(tx: Txer?, db: Db, retry: bool, env: Env) returns (err: Option<Error>)
    modifies if tx == null then {db} else {tx}
    ensures tx == null ==> exists n :: StopsAfter(retry, env, n) && err == TxOutcome(retry, env, n).1
                                       && db.store == old(db.store) + TxOutcome(retry, env, n).0
    ensures tx != null ==>
              (tx.State(), err) == Guarded(RunBody(env(0).body, old(tx.State()), None, tx.faults), tx.faults)
    decreases if tx == null then 1 else 0, env(0).body, 1
  {
    if tx == null {
      ghost var n, backoff;
      err, n, backoff := Tx(db, retry, env);
      return;
    }
    err := Run(env(0).body, db, tx, None);
    if err.Some? {
      var rberr := tx.Rollback();
      err := Some(Join(err.value, rberr));
    }
  }

  method RequireTx(tx: Txer?, db: Db, body: Body) returns (err: Option<Error>)
    modifies tx
    ensures tx == null ==> err == Some(Plain("no current transaction"))
    ensures tx != null ==> (tx.State(), err) == Guarded(RunBody(body, old(tx.State()), None, tx.faults), tx.faults)
    decreases 0, body, 1
  {
    if tx == null { return Some(ERR_NO_TX); }
    err := Run(body, db, tx, None);
    if err.Some? {
      var rberr := tx.Rollback();
      err := Some(Join(err.value, rberr));
    }
  }
}
