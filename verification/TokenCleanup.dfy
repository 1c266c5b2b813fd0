/** When Cleanup is invisible: a run answers every Verify as it would without its Cleanup
    calls, exactly as long as no Rotate revives a row that a Cleanup could have taken. */
module TokenCleanup {
  import opened Wrappers
  import opened TokenTable

  function Time(op: Op): Option<int> {
    match op
    case New(_, _, now) => Some(now)
    case Verify(_, now) => Some(now)
    case Rotate(_, _, _, now) => Some(now)
    case ResetIdle(_, now) => Some(now)
    case Cleanup(now) => Some(now)
    case _ => None
  }

  function Clock(clock: int, op: Op): int {
    match Time(op) case None => clock case Some(now) => now
  }

  function WithoutCleanups(h: seq<Op>): seq<Op> {
    if h == [] then []
    else (if h[0].Cleanup? then [] else [h[0]]) + WithoutCleanups(h[1..])
  }

  /** The answers to the Verify calls of h, from a table. */
  ghost function Answers(tab: Table, h: seq<Op>): seq<bool>
    decreases |h|
  {
    if h == [] then []
    else
      (if h[0].Verify? then [Accepts(tab, h[0].tok, h[0].now)] else []) + Answers(Apply(tab, h[0]), h[1..])
  }

  /** What is asked of one call: time does not go back, and a generated token string is not
      in the table. */
  ghost predicate Orderly(tab: Table, op: Op, clock: int) {
    clock <= Clock(clock, op) && (Minted(op).Some? ==> Minted(op).value !in tab)
  }

  /** ... and of a run; tab is the table without its cleanups. */
  ghost predicate OrderlyRun(tab: Table, h: seq<Op>, clock: int)
    decreases |h|
  {
    h != [] ==>
      Orderly(tab, h[0], clock)
      && OrderlyRun(if h[0].Cleanup? then tab else Apply(tab, h[0]), h[1..], Clock(clock, h[0]))
  }

  // ---------- when a cleanup shows ----------

  /** The table as it is when a cleanup comes just before the call. */
  ghost function Swept(tab: Table, op: Op): Table {
    match Time(op) case None => tab case Some(now) => Apply(tab, Cleanup(now))
  }

  /** The call renews a row that cleanups would have taken, and its new token can be used. */
  ghost predicate Revives(swept: Table, full: Table, op: Op) {
    && op.Rotate? && RotateSucceeds(full, op.prev, op.tok, op.args)
    && op.prev !in Swept(swept, op)
    && InForce(RotatedRow(full[op.prev], op.args, op.now), op.now)
  }

  /** No call of the run does, as many cleanups as there may have been. */
  ghost predicate NoRevival(swept: Table, full: Table, s: seq<Op>)
    decreases |s|
  {
    s != [] ==>
      !Revives(swept, full, s[0])
      && NoRevival(Apply(Swept(swept, s[0]), s[0]), Apply(full, s[0]), s[1..])
  }

  /** For a fresh token string, a Cleanup just before a Rotate changes the answer of a later
      Verify exactly when the Rotate renews an expired row and the Verify asks for the
      renewed token while that is in force. */
  lemma CleanupBeforeRotate(tab: Table, op: Op, t: TokenId, later: int)
    requires op.Rotate? && op.tok !in tab && op.now <= later
    ensures Accepts(Apply(tab, op), t, later) != Accepts(Apply(Apply(tab, Cleanup(op.now)), op), t, later)
        <==> t == op.tok && RotateSucceeds(tab, op.prev, op.tok, op.args) && tab[op.prev].expiry < op.now
             && InForce(RotatedRow(tab[op.prev], op.args, op.now), later)
  {
  }

  // ---------- the relation of a cleaned table to the full one ----------

  predicate SameButData(a: Row, b: Row) {
    a.(data := NULL_JSON) == b.(data := NULL_JSON)
  }

  /** Not in force now, and never again unless renewed. */
  predicate Dead(r: Row, clock: int) {
    r.expiry <= clock || (r.idleDuration == Some(0) && r.idle.Some? && r.idle.value <= clock)
  }

  /** The cleaned table lacks only dead rows. */
  ghost predicate Covers(cleaned: Table, full: Table, clock: int) {
    && (forall t :: t in cleaned ==> t in full && SameButData(cleaned[t], full[t]))
    && (forall t :: t in full && t !in cleaned ==> Dead(full[t], clock))
  }

  /** swept has seen every cleanup that cleaned has. */
  ghost predicate SweptMore(swept: Table, cleaned: Table, clock: int) {
    forall t :: t in swept && t !in cleaned ==> swept[t].expiry < clock
  }

  ghost predicate Related(swept: Table, cleaned: Table, full: Table, clock: int) {
    && Consistent(swept) && Consistent(cleaned) && Consistent(full)
    && Covers(swept, full, clock) && Covers(cleaned, full, clock) && SweptMore(swept, cleaned, clock)
  }

  lemma SameAnswer(cleaned: Table, full: Table, tok: TokenId, now: int)
    requires Covers(cleaned, full, now)
    ensures Accepts(cleaned, tok, now) <==> Accepts(full, tok, now)
  {
  }

  lemma NotInForceIsDead(r: Row, args: Args, now: int)
    requires !InForce(RotatedRow(r, args, now), now)
    ensures Dead(RotatedRow(r, args, now), now)
  {
  }

  lemma NewSimulates(cleaned: Table, full: Table, op: Op, clock: int)
    requires op.New? && Consistent(cleaned) && Consistent(full)
    requires Covers(cleaned, full, clock) && Orderly(full, op, clock)
    ensures Covers(Apply(cleaned, op), Apply(full, op), op.now)
  {
    if op.args.singleUse {
      ConflictIsUnique(cleaned, op.args);
      ConflictIsUnique(full, op.args);
      var c := Conflict(full, op.args);
      if c.Some? && c.value in cleaned {
        assert SamePair(cleaned[c.value], op.args.typ, op.args.ref);
      }
      var d := Conflict(cleaned, op.args);
      if d.Some? {
        assert SamePair(full[d.value], op.args.typ, op.args.ref);
      }
    }
  }

  lemma RotateSimulates(cleaned: Table, full: Table, op: Op, clock: int)
    requires op.Rotate? && Covers(cleaned, full, clock) && Orderly(full, op, clock)
    requires RotateSucceeds(full, op.prev, op.tok, op.args) && op.prev !in cleaned
         ==> !InForce(RotatedRow(full[op.prev], op.args, op.now), op.now)
    ensures Covers(Apply(cleaned, op), Apply(full, op), op.now)
  {
    if RotateSucceeds(full, op.prev, op.tok, op.args) && op.prev !in cleaned {
      NotInForceIsDead(full[op.prev], op.args, op.now);
    }
  }

  lemma OtherSimulates(cleaned: Table, full: Table, op: Op, clock: int)
    requires !op.New? && !op.Rotate? && !op.Cleanup?
    requires Covers(cleaned, full, clock) && Orderly(full, op, clock)
    ensures Covers(Apply(cleaned, op), Apply(full, op), Clock(clock, op))
  {
    if op.Verify? { SameAnswer(cleaned, full, op.tok, op.now); }
  }

  /** A call other than Cleanup keeps the relation, if it renews no row that is missing. */
  lemma StepSimulates(cleaned: Table, full: Table, op: Op, clock: int)
    requires !op.Cleanup? && Consistent(cleaned) && Consistent(full)
    requires Covers(cleaned, full, clock) && Orderly(full, op, clock)
    requires op.Rotate? && RotateSucceeds(full, op.prev, op.tok, op.args) && op.prev !in cleaned
         ==> !InForce(RotatedRow(full[op.prev], op.args, op.now), op.now)
    ensures Covers(Apply(cleaned, op), Apply(full, op), Clock(clock, op))
  {
    if op.New? { NewSimulates(cleaned, full, op, clock); }
    else if op.Rotate? { RotateSimulates(cleaned, full, op, clock); }
    else { OtherSimulates(cleaned, full, op, clock); }
  }

  lemma SweepRelated(swept: Table, cleaned: Table, full: Table, op: Op, clock: int)
    requires Related(swept, cleaned, full, clock) && clock <= Clock(clock, op)
    ensures Related(Swept(swept, op), cleaned, full, Clock(clock, op))
    ensures Time(op).Some? ==> forall t :: t in Swept(swept, op) ==> t in cleaned
  {
  }

  lemma NewSweptMore(swept: Table, cleaned: Table, full: Table, op: Op, clock: int)
    requires op.New? && Related(swept, cleaned, full, clock) && Orderly(full, op, clock)
    requires forall t :: t in swept ==> t in cleaned
    ensures SweptMore(Apply(swept, op), Apply(cleaned, op), clock)
  {
    if op.args.singleUse {
      ConflictIsUnique(swept, op.args);
      ConflictIsUnique(cleaned, op.args);
      var c := Conflict(cleaned, op.args);
      if c.Some? && c.value in swept {
        assert SamePair(swept[c.value], op.args.typ, op.args.ref);
      }
    }
  }

  lemma OtherSweptMore(swept: Table, cleaned: Table, full: Table, op: Op, clock: int)
    requires !op.New? && !op.Cleanup? && Related(swept, cleaned, full, clock)
    requires Orderly(full, op, clock) && Clock(clock, op) == clock
    requires Time(op).Some? ==> forall t :: t in swept ==> t in cleaned
    ensures SweptMore(Apply(swept, op), Apply(cleaned, op), clock)
  {
    if op.Verify? {
      SameAnswer(swept, full, op.tok, op.now);
      SameAnswer(cleaned, full, op.tok, op.now);
    }
  }

  lemma StepRelated(swept: Table, cleaned: Table, full: Table, op: Op, clock: int)
    requires !op.Cleanup? && Related(swept, cleaned, full, clock) && Orderly(full, op, clock)
    requires !Revives(swept, full, op)
    ensures Related(Apply(Swept(swept, op), op), Apply(cleaned, op), Apply(full, op), Clock(clock, op))
  {
    var now := Clock(clock, op);
    var swept' := Swept(swept, op);
    SweepRelated(swept, cleaned, full, op, clock);
    ApplyKeepsConsistent(swept', op);
    ApplyKeepsConsistent(cleaned, op);
    ApplyKeepsConsistent(full, op);
    StepSimulates(swept', full, op, now);
    StepSimulates(cleaned, full, op, now);
    if op.New? {
      NewSweptMore(swept', cleaned, full, op, now);
    } else {
      OtherSweptMore(swept', cleaned, full, op, now);
    }
  }

  lemma CleanRelated(swept: Table, cleaned: Table, full: Table, now: int, clock: int)
    requires Related(swept, cleaned, full, clock) && clock <= now
    ensures Related(swept, Apply(cleaned, Cleanup(now)), full, now)
  {
    ApplyKeepsConsistent(cleaned, Cleanup(now));
  }

  lemma {:induction false} CleanedAnswersAgree(swept: Table, cleaned: Table, full: Table, h: seq<Op>, clock: int)
    requires Related(swept, cleaned, full, clock)
    requires OrderlyRun(full, h, clock) && NoRevival(swept, full, WithoutCleanups(h))
    ensures Answers(cleaned, h) == Answers(full, WithoutCleanups(h))
    decreases |h|
  {
    if h != [] {
      var op, rest := h[0], WithoutCleanups(h[1..]);
      if op.Cleanup? {
        CleanRelated(swept, cleaned, full, op.now, clock);
        assert WithoutCleanups(h) == rest;
        CleanedAnswersAgree(swept, Apply(cleaned, op), full, h[1..], op.now);
      } else {
        assert WithoutCleanups(h) == [op] + rest;
        assert WithoutCleanups(h)[1..] == rest;
        StepRelated(swept, cleaned, full, op, clock);
        CleanedAnswersAgree(Apply(Swept(swept, op), op), Apply(cleaned, op), Apply(full, op), h[1..], Clock(clock, op));
        if op.Verify? { VerifyAgrees(cleaned, full, op, clock); }
      }
    }
  }

  lemma VerifyAgrees(cleaned: Table, full: Table, op: Op, clock: int)
    requires op.Verify? && Covers(cleaned, full, clock) && clock <= op.now
    ensures Accepts(cleaned, op.tok, op.now) <==> Accepts(full, op.tok, op.now)
  {
  }

  /** Inserting Cleanup calls anywhere in a run without revival changes no Verify outcome:
      two runs that are the same without their Cleanups give the same answers. */
  lemma CleanupIsInvisible(h1: seq<Op>, h2: seq<Op>, clock: int)
    requires OrderlyRun(map[], h1, clock) && OrderlyRun(map[], h2, clock)
    requires WithoutCleanups(h1) == WithoutCleanups(h2) && NoRevival(map[], map[], WithoutCleanups(h1))
    ensures Answers(map[], h1) == Answers(map[], h2)
  {
    CleanedAnswersAgree(map[], map[], map[], h1, clock);
    CleanedAnswersAgree(map[], map[], map[], h2, clock);
  }

  lemma AnswersStep(tab: Table, op: Op, rest: seq<Op>)
    ensures Answers(tab, [op] + rest)
         == (if op.Verify? then [Accepts(tab, op.tok, op.now)] else []) + Answers(Apply(tab, op), rest)
  {
    assert ([op] + rest)[1..] == rest;
  }

  // ---------- and only then ----------

  predicate CleanupFree(s: seq<Op>) {
    forall i :: 0 <= i < |s| ==> !s[i].Cleanup?
  }

  /** The first i calls, and then a question. */
  function Probe(s: seq<Op>, i: nat, tok: TokenId, now: int): seq<Op>
    requires i <= |s|
  {
    s[..i] + [Verify(tok, now)]
  }

  /** A Cleanup before every call that has a time. */
  function WithSweeps(s: seq<Op>): seq<Op> {
    if s == [] then []
    else match Time(s[0])
         case None => [s[0]] + WithSweeps(s[1..])
         case Some(now) => [Cleanup(now)] + ([s[0]] + WithSweeps(s[1..]))
  }

  lemma {:induction false} NothingToDrop(s: seq<Op>)
    requires CleanupFree(s)
    ensures WithoutCleanups(s) == s
  {
    if s != [] { NothingToDrop(s[1..]); }
  }

  lemma DropStep(op: Op, rest: seq<Op>)
    ensures WithoutCleanups([op] + rest) == (if op.Cleanup? then [] else [op]) + WithoutCleanups(rest)
  {
    assert ([op] + rest)[1..] == rest;
  }

  lemma {:induction false} SweepsDrop(s: seq<Op>)
    requires CleanupFree(s)
    ensures WithoutCleanups(WithSweeps(s)) == s
  {
    if s != [] {
      SweepsDrop(s[1..]);
      DropStep(s[0], WithSweeps(s[1..]));
      if Time(s[0]).Some? {
        DropStep(Cleanup(Time(s[0]).value), [s[0]] + WithSweeps(s[1..]));
      }
    }
  }

  lemma OrderlyStep(tab: Table, op: Op, rest: seq<Op>, clock: int)
    ensures OrderlyRun(tab, [op] + rest, clock)
        <==> Orderly(tab, op, clock) && OrderlyRun(if op.Cleanup? then tab else Apply(tab, op), rest, Clock(clock, op))
  {
    assert ([op] + rest)[1..] == rest;
  }

  lemma {:induction false} SweepsAreOrderly(tab: Table, s: seq<Op>, clock: int)
    requires CleanupFree(s) && OrderlyRun(tab, s, clock)
    ensures OrderlyRun(tab, WithSweeps(s), clock)
    decreases |s|
  {
    if s != [] {
      var op, rest := s[0], WithSweeps(s[1..]);
      var now := Clock(clock, op);
      SweepsAreOrderly(Apply(tab, op), s[1..], now);
      OrderlyStep(tab, op, rest, now);
      OrderlyStep(tab, op, rest, clock);
      OrderlyStep(tab, Cleanup(now), [op] + rest, clock);
    }
  }

  /** The answers of a swept run, one call at a time. */
  lemma SweptAnswers(swept: Table, op: Op, rest: seq<Op>)
    ensures Answers(swept, WithSweeps([op] + rest))
         == (if op.Verify? then [Accepts(Swept(swept, op), op.tok, op.now)] else [])
            + Answers(Apply(Swept(swept, op), op), WithSweeps(rest))
  {
    assert ([op] + rest)[1..] == rest;
    AnswersStep(Swept(swept, op), op, WithSweeps(rest));
    if Time(op).Some? {
      AnswersStep(swept, Cleanup(Time(op).value), [op] + WithSweeps(rest));
    }
  }

  lemma RevivalShowsNow(swept: Table, full: Table, op: Op, clock: int)
    requires Related(swept, full, full, clock) && Orderly(full, op, clock) && Revives(swept, full, op)
    ensures var p := [op] + [Verify(op.tok, op.now)];
            OrderlyRun(full, p, clock) && Answers(full, p) == [true] && Answers(swept, WithSweeps(p)) == [false]
  {
    var ask := Verify(op.tok, op.now);
    OrderlyStep(Apply(full, op), ask, [], op.now);
    OrderlyStep(full, op, [ask], clock);
    assert [ask] + [] == [ask];
    AnswersStep(full, op, [ask]);
    AnswersStep(Apply(full, op), ask, []);
    SweptAnswers(swept, op, [ask]);
    var swept' := Apply(Swept(swept, op), op);
    assert op.tok !in swept && swept' == Swept(swept, op);
    SweptAnswers(swept', ask, []);
  }

  lemma StillDiffer(first: seq<bool>, a: seq<bool>, b: seq<bool>)
    requires a != b
    ensures first + a != first + b
  {
    assert (first + a)[|first|..] == a && (first + b)[|first|..] == b;
  }

  /** When some call revives a row, sweeping changes the answer to a question asked right
      after it. */
  lemma {:induction false} RevivalShows(swept: Table, full: Table, s: seq<Op>, clock: int)
    returns (i: nat, tok: TokenId, now: int)
    requires Related(swept, full, full, clock) && OrderlyRun(full, s, clock)
    requires CleanupFree(s) && !NoRevival(swept, full, s)
    ensures i <= |s| && OrderlyRun(full, Probe(s, i, tok, now), clock)
    ensures Answers(swept, WithSweeps(Probe(s, i, tok, now))) != Answers(full, Probe(s, i, tok, now))
    decreases |s|
  {
    var op := s[0];
    if Revives(swept, full, op) {
      RevivalShowsNow(swept, full, op, clock);
      i, tok, now := 1, op.tok, op.now;
      assert s[..1] == [op];
    } else {
      StepRelated(swept, full, full, op, clock);
      var swept', full' := Apply(Swept(swept, op), op), Apply(full, op);
      i, tok, now := RevivalShows(swept', full', s[1..], Clock(clock, op));
      var p := Probe(s[1..], i, tok, now);
      i := i + 1;
      assert Probe(s, i, tok, now) == [op] + p;
      OrderlyStep(full, op, p, clock);
      AnswersStep(full, op, p);
      SweptAnswers(swept, op, p);
      if op.Verify? {
        SweepRelated(swept, full, full, op, clock);
        VerifyAgrees(Swept(swept, op), full, op, op.now);
      }
      var first := if op.Verify? then [Accepts(full, op.tok, op.now)] else [];
      StillDiffer(first, Answers(swept', WithSweeps(p)), Answers(full', p));
    }
  }

  lemma {:induction false} ProbeRevivesNothing(swept: Table, full: Table, s: seq<Op>, i: nat, tok: TokenId, now: int)
    requires i <= |s| && NoRevival(swept, full, s)
    ensures NoRevival(swept, full, Probe(s, i, tok, now))
    decreases |s|
  {
    var p := Probe(s, i, tok, now);
    if i == 0 {
      assert p == [Verify(tok, now)] && p[1..] == [];
    } else {
      ProbeRevivesNothing(Apply(Swept(swept, s[0]), s[0]), Apply(full, s[0]), s[1..], i - 1, tok, now);
      assert p[0] == s[0] && p[1..] == Probe(s[1..], i - 1, tok, now);
    }
  }

  /** No Cleanup calls change an answer of this run. */
  ghost predicate Invisible(p: seq<Op>, clock: int) {
    forall h :: OrderlyRun(map[], h, clock) && WithoutCleanups(h) == p ==> Answers(map[], h) == Answers(map[], p)
  }

  /** Every question one may ask in the course of the run. */
  ghost predicate AlwaysInvisible(s: seq<Op>, clock: int) {
    forall i, tok, now :: 0 <= i <= |s| && OrderlyRun(map[], Probe(s, i, tok, now), clock)
      ==> Invisible(Probe(s, i, tok, now), clock)
  }

  /** In the course of a run, Cleanup calls are invisible to every question exactly when no
      Rotate of the run revives a row. */
  lemma InvisibleExactly(s: seq<Op>, clock: int)
    requires CleanupFree(s) && OrderlyRun(map[], s, clock)
    ensures AlwaysInvisible(s, clock) <==> NoRevival(map[], map[], s)
  {
    if NoRevival(map[], map[], s) {
      forall i, tok, now | 0 <= i <= |s| && OrderlyRun(map[], Probe(s, i, tok, now), clock)
        ensures Invisible(Probe(s, i, tok, now), clock)
      {
        ProbeRevivesNothing(map[], map[], s, i, tok, now);
        NothingToDrop(Probe(s, i, tok, now));
        forall h | OrderlyRun(map[], h, clock) && WithoutCleanups(h) == Probe(s, i, tok, now)
          ensures Answers(map[], h) == Answers(map[], Probe(s, i, tok, now))
        {
          CleanupIsInvisible(h, Probe(s, i, tok, now), clock);
        }
      }
    } else {
      var i, tok, now := RevivalShows(map[], map[], s, clock);
      SweepsDrop(Probe(s, i, tok, now));
      SweepsAreOrderly(map[], Probe(s, i, tok, now), clock);
    }
  }

  /** A run with a revival: Rotate renews an expired token unless Cleanup came first. */
  lemma RotateRevivesExpired()
    ensures var tok, next, now := "0123456789", "9876543210", 2 * TIME_UNIT;
            var args := Args("session", 1, false, SECOND, 0, None);
            var born, revive := [New(tok, args, 0)], [Rotate(tok, next, args, now)] + [Verify(next, now)];
            Answers(map[], born + revive) == [true]
            && Answers(map[], born + ([Cleanup(now)] + revive)) == [false]
  {
    var tok, next, now := "0123456789", "9876543210", 2 * TIME_UNIT;
    var args := Args("session", 1, false, SECOND, 0, None);
    var rotate, verify := Rotate(tok, next, args, now), [Verify(next, now)];
    var t1 := Apply(map[], New(tok, args, 0));
    assert Conflict(map[], args).None?;
    assert Storable(tok, "session", None) && Storable(next, "session", None);
    assert t1 == map[tok := NewRow(args, 0)] && NewRow(args, 0).expiry == TIME_UNIT;
    AnswersStep(map[], New(tok, args, 0), [rotate] + verify);
    AnswersStep(t1, rotate, verify);
    AnswersStep(map[], New(tok, args, 0), [Cleanup(now)] + ([rotate] + verify));
    AnswersStep(t1, Cleanup(now), [rotate] + verify);
    assert Apply(t1, Cleanup(now)) == map[];
    AnswersStep(map[], rotate, verify);
    assert verify + [] == verify;
    AnswersStep(Apply(t1, rotate), verify[0], []);
    AnswersStep(map[], verify[0], []);
  }
}
