/** When a token is accepted, told from the history of calls alone; and the proof that
    the table always agrees. */
module TokenHistory {
  import opened Wrappers
  import opened TokenTable

  /** Token strings are random: no call generates one that an earlier call generated. */
  ghost predicate Fresh(h: seq<Op>) {
    forall i, j :: 0 <= i < j < |h| && Minted(h[j]).Some? ==> Minted(h[i]) != Minted(h[j])
  }

  // ---------- the specification: no table in sight ----------

  /** What a token is born with; it keeps all of it for life. */
  datatype Birth = Birth(typ: string, singleUse: bool, ref: Ref, expiry: int, idle: Option<int>, at: int)

  /** The call among the first n that put t in circulation, if t still is: it was not
      ended by any call since. */
  ghost function Life(h: seq<Op>, n: nat, t: TokenId): (i: Option<nat>)
    requires n <= |h|
    ensures i.Some? ==> i.value < n && Issues(h, i.value, t)
    decreases n, 2
  {
    if n == 0 then None
    else if Issues(h, n - 1, t) then Some(n - 1)
    else
      var i := Life(h, n - 1, t);
      if i.Some? && Ends(h, n - 1, t, i.value) then None else i
  }

  /** Call i puts t in circulation: a New that violates no constraint, or a Rotate of a
      multi-use token that was itself in circulation. */
  ghost predicate Issues(h: seq<Op>, i: nat, t: TokenId)
    requires i < |h|
    decreases i, 4
  {
    match h[i]
    case New(tok, args, _) => tok == t && Storable(tok, args.typ, IdleSeconds(args, args.singleUse))
    case Rotate(prev, tok, args, _) => tok == t && Rotates(h, i, prev)
    case _ => false
  }

  ghost predicate Rotates(h: seq<Op>, i: nat, prev: TokenId)
    requires i < |h| && h[i].Rotate?
    decreases i, 3
  {
    var k := Life(h, i, prev);
    k.Some? && !Born(h, k.value, prev).singleUse
    && Storable(h[i].tok, Born(h, k.value, prev).typ, IdleSeconds(h[i].args, false))
  }

  ghost function Born(h: seq<Op>, i: nat, t: TokenId): Birth
    requires i < |h| && Issues(h, i, t)
    decreases i, 5
  {
    match h[i]
    case New(_, args, now) =>
      Birth(args.typ, args.singleUse, args.ref, Expiry(args, now), IdleSeconds(args, args.singleUse), now)
    case Rotate(prev, _, args, now) =>
      assert Rotates(h, i, prev);
      Birth(Born(h, Life(h, i, prev).value, prev).typ, false, args.ref, Expiry(args, now), IdleSeconds(args, false),
            now)
  }

  /** Call j takes t, issued by call i, out of circulation. */
  ghost predicate Ends(h: seq<Op>, j: nat, t: TokenId, i: nat)
    requires i < j < |h| && Issues(h, i, t)
    decreases j, 6
  {
    var b := Born(h, i, t);
    match h[j]
    case Delete(tok) => tok == t
    case DeleteByTypeRef(typ, ref) => b.typ == typ && b.ref == ref
    case Rotate(prev, _, _, _) => prev == t && Rotates(h, j, prev)
    case New(tok, args, _) =>    // single-use replacement
      b.singleUse && args.singleUse && b.typ == args.typ && b.ref == args.ref
      && Storable(tok, args.typ, None)
    case Verify(tok, now) =>     // single-use consumption
      tok == t && b.singleUse && InDate(h, j, t, i, now)
    case Cleanup(now) => b.expiry < now
    case ResetIdle(_, _) => false
    case UpdateData(_, _) => false
  }

  /** When t, issued by call i, was last used before call n: at its issue, an accepted
      Verify or a ResetIdle. */
  ghost function LastUse(h: seq<Op>, n: nat, t: TokenId, i: nat): int
    requires i < n <= |h| && Issues(h, i, t)
    decreases n, 0
  {
    if n == i + 1 then Born(h, i, t).at
    else
      match h[n - 1]
      case Verify(tok, now) => if tok == t && InDate(h, n - 1, t, i, now) then now else LastUse(h, n - 1, t, i)
      case ResetIdle(tok, now) => if tok == t then now else LastUse(h, n - 1, t, i)
      case _ => LastUse(h, n - 1, t, i)
  }

  ghost predicate InDate(h: seq<Op>, n: nat, t: TokenId, i: nat, now: int)
    requires i < n <= |h| && Issues(h, i, t)
    decreases n, 1
  {
    var b := Born(h, i, t);
    now < b.expiry && (b.idle.Some? ==> now < LastUse(h, n, t, i) + b.idle.value * TIME_UNIT)
  }

  /** The specification of Verify's load step after the first n calls. */
  ghost predicate ShouldAccept(h: seq<Op>, n: nat, t: TokenId, now: int)
    requires n <= |h|
  {
    var i := Life(h, n, t);
    i.Some? && InDate(h, n, t, i.value, now)
  }

  // ---------- the table ----------

  ghost function After(h: seq<Op>, n: nat): Table
    requires n <= |h|
  {
    if n == 0 then map[] else Apply(After(h, n - 1), h[n - 1])
  }

  ghost function RowOf(h: seq<Op>, n: nat, t: TokenId, i: nat, data: Json): Row
    requires i < n <= |h| && Issues(h, i, t)
  {
    var b := Born(h, i, t);
    Row(b.typ, b.singleUse, b.ref, b.expiry, IdleUntil(LastUse(h, n, t, i), b.idle), b.idle, data)
  }

  /** The row of t is what the history says, its data aside. */
  ghost predicate Agrees(h: seq<Op>, n: nat, t: TokenId)
    requires n <= |h|
  {
    var i, tab := Life(h, n, t), After(h, n);
    if i.None? then t !in tab else t in tab && tab[t] == RowOf(h, n, t, i.value, tab[t].data)
  }

  lemma {:induction false} AfterIsConsistent(h: seq<Op>, n: nat)
    requires n <= |h|
    ensures Consistent(After(h, n))
  {
    if n > 0 {
      AfterIsConsistent(h, n - 1);
      ApplyKeepsConsistent(After(h, n - 1), h[n - 1]);
    }
  }

  /** Issue happens once, so a token that left circulation never returns to it. */
  lemma {:induction false} GoneForGood(h: seq<Op>, i: nat, m: nat, n: nat, t: TokenId)
    requires Fresh(h) && i < m <= n <= |h| && Minted(h[i]) == Some(t)
    ensures Life(h, m, t).None? ==> Life(h, n, t).None?
    ensures Life(h, n, t).Some? ==> Life(h, n, t) == Life(h, m, t)
    decreases n
  {
    if m < n {
      GoneForGood(h, i, m, n - 1, t);
      assert Minted(h[n - 1]) != Some(t);
    }
  }

  lemma FreshIsNew(h: seq<Op>, n: nat)
    requires Fresh(h) && n < |h| && Minted(h[n]).Some?
    ensures Life(h, n, Minted(h[n]).value).None?
  {
  }

  lemma AcceptsInDate(h: seq<Op>, n: nat, t: TokenId, now: int)
    requires n <= |h| && Agrees(h, n, t)
    ensures Accepts(After(h, n), t, now) <==> ShouldAccept(h, n, t, now)
  {
  }

  lemma NewAgrees(h: seq<Op>, n: nat, t: TokenId)
    requires Fresh(h) && n < |h| && h[n].New?
    requires forall u :: Agrees(h, n, u)
    ensures Agrees(h, n + 1, t)
  {
    var tab, tok, args := After(h, n), h[n].tok, h[n].args;
    AfterIsConsistent(h, n);
    FreshIsNew(h, n);
    assert Agrees(h, n, t) && Agrees(h, n, tok);
    var c := Conflict(tab, args);
    if c.Some? { assert Agrees(h, n, c.value); }
    if args.singleUse { ConflictIsUnique(tab, args); }
  }

  lemma RotateAgrees(h: seq<Op>, n: nat, t: TokenId)
    requires Fresh(h) && n < |h| && h[n].Rotate?
    requires Agrees(h, n, t) && Agrees(h, n, h[n].prev) && Agrees(h, n, h[n].tok)
    ensures Agrees(h, n + 1, t)
  {
    var prev, tok := h[n].prev, h[n].tok;
    FreshIsNew(h, n);
    assert RotateSucceeds(After(h, n), prev, tok, h[n].args) <==> Rotates(h, n, prev);
    if Rotates(h, n, prev) && t == tok {
      assert Life(h, n + 1, t) == Some(n);
    }
  }

  lemma OtherAgrees(h: seq<Op>, n: nat, t: TokenId)
    requires n < |h| && !h[n].New? && !h[n].Rotate? && Agrees(h, n, t)
    ensures Agrees(h, n + 1, t)
  {
    if h[n].Verify? { AcceptsInDate(h, n, t, h[n].now); }
  }

  lemma StepAgrees(h: seq<Op>, n: nat, t: TokenId)
    requires Fresh(h) && n < |h|
    requires forall u :: Agrees(h, n, u)
    ensures Agrees(h, n + 1, t)
  {
    if h[n].New? { NewAgrees(h, n, t); }
    else if h[n].Rotate? { RotateAgrees(h, n, t); }
    else { OtherAgrees(h, n, t); }
  }

  /** In every serial run with fresh token strings, the table holds exactly the tokens in
      circulation, each with the row its history gives it. */
  lemma {:induction false} TableAgrees(h: seq<Op>, n: nat, t: TokenId)
    requires Fresh(h) && n <= |h|
    ensures Agrees(h, n, t)
    decreases n
  {
    if n > 0 {
      var m := n - 1;
      forall u ensures Agrees(h, m, u) { TableAgrees(h, m, u); }
      StepAgrees(h, m, t);
    }
  }

  /** Verify accepts exactly the tokens that the history of calls says it should. */
  lemma VerifyMeetsHistory(h: seq<Op>, n: nat, t: TokenId, now: int)
    requires Fresh(h) && n <= |h|
    ensures Accepts(After(h, n), t, now) <==> ShouldAccept(h, n, t, now)
  {
    TableAgrees(h, n, t);
    AcceptsInDate(h, n, t, now);
  }

  ghost predicate Unended(h: seq<Op>, n: nat, t: TokenId, i: nat)
    requires n <= |h| && i < |h| && Issues(h, i, t)
  {
    forall j {:trigger Ends(h, j, t, i)} :: i < j < n ==> !Ends(h, j, t, i)
  }

  /** The reading of Life: issued by call i, and by no later call ended. */
  lemma {:induction false} LifeMeans(h: seq<Op>, n: nat, t: TokenId, i: nat)
    requires Fresh(h) && n <= |h|
    ensures Life(h, n, t) == Some(i) <==> i < n && Issues(h, i, t) && Unended(h, n, t, i)
    decreases n
  {
    if n > 0 {
      LifeMeans(h, n - 1, t, i);
      if i < n - 1 && Issues(h, i, t) {
        assert Minted(h[i]) == Some(t) && Minted(h[n - 1]) != Some(t);
        assert !Issues(h, n - 1, t);
        assert Unended(h, n, t, i) <==> Unended(h, n - 1, t, i) && !Ends(h, n - 1, t, i) by {
          if Unended(h, n - 1, t, i) && !Ends(h, n - 1, t, i) {
            forall j | i < j < n ensures !Ends(h, j, t, i) {}
          }
        }
        var before := Life(h, n - 1, t);
        assert Life(h, n, t) == if before.Some? && Ends(h, n - 1, t, before.value) then None else before;
      }
    }
  }

  // ---------- in the terms of the arguments ----------

  /** Timestamps count microseconds and durations nanoseconds; what is stored of a duration
      is its whole seconds, toward zero. */
  function WholeSeconds(duration: int): int {
    (if duration >= 0 then duration / 1_000_000_000 else -(-duration / 1_000_000_000)) * 1_000_000
  }

  /** What the columns can hold: token strings of 10 to 100 characters, types of 1 to 100,
      and idle times of at most 2^31 - 1 seconds. */
  predicate Fits(tok: TokenId, typ: string, idle: int) {
    10 <= |tok| <= 100 && 1 <= |typ| <= 100 && (idle > 0 ==> idle / 1_000_000_000 <= 2_147_483_647)
  }

  /** A New issues its token exactly when that fits, single-use tokens having no idle time,
      and a Rotate when the token it names is a multi-use one in circulation. */
  lemma IssuesMeans(h: seq<Op>, i: nat, t: TokenId)
    requires i < |h|
    ensures h[i].New? ==>
              (Issues(h, i, t) <==> h[i].tok == t
                                    && Fits(t, h[i].args.typ, if h[i].args.singleUse then 0 else h[i].args.idle))
    ensures h[i].Rotate? ==>
              (Issues(h, i, t) <==> h[i].tok == t && Life(h, i, h[i].prev).Some?
                                    && var b := Born(h, Life(h, i, h[i].prev).value, h[i].prev);
                                       !b.singleUse && Fits(t, b.typ, h[i].args.idle))
    ensures !h[i].New? && !h[i].Rotate? ==> !Issues(h, i, t)
  {
  }

  /** A later New ends exactly the single-use tokens of its type and ref_id, if it is for a
      single-use one itself and issues it. */
  lemma ReplacementMeans(h: seq<Op>, j: nat, t: TokenId, i: nat)
    requires i < j < |h| && Issues(h, i, t) && h[j].New?
    ensures var b := Born(h, i, t);
            Ends(h, j, t, i) <==> b.singleUse && h[j].args.singleUse && Issues(h, j, h[j].tok)
                                  && b.typ == h[j].args.typ && b.ref == h[j].args.ref
  {
  }

  lemma SecondsMean(args: Args, at: int)
    ensures Expiry(args, at) == at + WholeSeconds(args.absolute)
    ensures args.idle > 0 ==> Seconds(args.idle) * TIME_UNIT == WholeSeconds(args.idle)
  {
  }

  /** Has an idle expiry: Rotate does not ask whether it is for a single-use token. */
  predicate Idles(op: Op)
    requires op.New? || op.Rotate?
  {
    op.args.idle > 0 && !(op.New? && op.args.singleUse)
  }

  lemma InDateMeans(h: seq<Op>, n: nat, i: nat, now: int)
    requires i < n <= |h| && (h[i].New? || h[i].Rotate?) && Issues(h, i, h[i].tok)
    ensures InDate(h, n, h[i].tok, i, now)
        <==> now - h[i].now < WholeSeconds(h[i].args.absolute)
             && (Idles(h[i]) ==> now - LastUse(h, n, h[i].tok, i) < WholeSeconds(h[i].args.idle))
  {
    SecondsMean(h[i].args, h[i].now);
    var b := Born(h, i, h[i].tok);
    assert b.expiry == Expiry(h[i].args, h[i].now);
    assert b.idle == if Idles(h[i]) then Some(Seconds(h[i].args.idle)) else None;
  }

  /** A token that call i issued is accepted exactly while it is in circulation, for the whole
      seconds of its absolute expiry since the call, and, being a multi-use one with an idle
      expiry, for the whole seconds of that since its last use. */
  lemma AcceptedExactly(h: seq<Op>, n: nat, i: nat, now: int)
    requires Fresh(h) && i < n <= |h| && (h[i].New? || h[i].Rotate?)
    ensures Accepts(After(h, n), h[i].tok, now)
        <==> && Life(h, n, h[i].tok) == Some(i)
             && now - h[i].now < WholeSeconds(h[i].args.absolute)
             && (Idles(h[i]) ==> now - LastUse(h, n, h[i].tok, i) < WholeSeconds(h[i].args.idle))
  {
    var t := h[i].tok;
    VerifyMeetsHistory(h, n, t, now);
    var k := Life(h, n, t);
    if k.Some? {
      LifeIsMinted(h, n, t);
      assert Minted(h[i]) == Some(t) && Minted(h[k.value]) == Some(t);
      assert k == Some(i);
      InDateMeans(h, n, i, now);
    }
  }

  // ---------- the data of a token ----------

  /** Call i replaces the single-use token u. */
  ghost predicate Replaced(h: seq<Op>, i: nat, u: TokenId)
    requires i < |h|
  {
    && Life(h, i, u).Some? && h[i].New? && h[i].args.singleUse
    && var b := Born(h, Life(h, i, u).value, u);
       b.singleUse && b.typ == h[i].args.typ && b.ref == h[i].args.ref
  }

  /** The data of t, issued by call i, after the first n calls: that of the latest UpdateData;
      before the first one, that of the token it replaced; and otherwise what its call asks
      for, a Rotate that asks for none keeping that of the token it renews. */
  ghost function DataOf(h: seq<Op>, n: nat, t: TokenId, i: nat): Json
    requires i < n <= |h| && Issues(h, i, t)
    decreases n
  {
    if n > i + 1 then
      if h[n - 1].UpdateData? && h[n - 1].tok == t then h[n - 1].data else DataOf(h, n - 1, t, i)
    else if h[i].New? then
      if u :| Replaced(h, i, u) then DataOf(h, i, u, Life(h, i, u).value)
      else if h[i].args.data.Some? then h[i].args.data.value else "null"
    else
      assert Rotates(h, i, h[i].prev);
      if h[i].args.data.Some? then h[i].args.data.value
      else DataOf(h, i, h[i].prev, Life(h, i, h[i].prev).value)
  }

  ghost predicate DataAgrees(h: seq<Op>, n: nat, t: TokenId)
    requires n <= |h|
  {
    var i := Life(h, n, t);
    i.Some? ==> t in After(h, n) && After(h, n)[t].data == DataOf(h, n, t, i.value)
  }

  lemma ReplacedIsConflict(h: seq<Op>, n: nat, u: TokenId)
    requires Fresh(h) && n < |h| && h[n].New?
    ensures Replaced(h, n, u) <==> ConflictsWith(After(h, n), h[n].args, u)
    ensures Replaced(h, n, u) ==> Conflict(After(h, n), h[n].args) == Some(u)
  {
    TableAgrees(h, n, u);
    AfterIsConsistent(h, n);
    if Replaced(h, n, u) { ConflictIsUnique(After(h, n), h[n].args); }
  }

  lemma NewDataAgrees(h: seq<Op>, n: nat, t: TokenId)
    requires Fresh(h) && n < |h| && h[n].New? && Issues(h, n, t)
    requires forall u :: DataAgrees(h, n, u)
    ensures DataAgrees(h, n + 1, t)
  {
    var tab, args := After(h, n), h[n].args;
    AfterIsConsistent(h, n);
    FreshIsNew(h, n);
    TableAgrees(h, n, t);
    NewStores(tab, t, args, h[n].now);
    if u :| Replaced(h, n, u) {
      ReplacedIsConflict(h, n, u);
      assert DataAgrees(h, n, u);
      forall v | Replaced(h, n, v) ensures v == u { ReplacedIsConflict(h, n, v); }
    } else if Conflict(tab, args).Some? {
      ReplacedIsConflict(h, n, Conflict(tab, args).value);
    }
  }

  lemma StepDataAgrees(h: seq<Op>, n: nat, t: TokenId)
    requires Fresh(h) && n < |h|
    requires forall u :: DataAgrees(h, n, u)
    ensures DataAgrees(h, n + 1, t)
  {
    TableAgrees(h, n, t);
    TableAgrees(h, n + 1, t);
    if Life(h, n + 1, t).Some? {
      if Life(h, n + 1, t) == Some(n) {
        if h[n].New? {
          NewDataAgrees(h, n, t);
        } else {
          TableAgrees(h, n, h[n].prev);
          assert DataAgrees(h, n, h[n].prev);
        }
      } else {
        KeptData(h, n, t);
      }
    }
  }

  lemma KeptData(h: seq<Op>, n: nat, t: TokenId)
    requires Fresh(h) && n < |h| && Life(h, n + 1, t).Some? && Life(h, n + 1, t) != Some(n) && DataAgrees(h, n, t)
    requires t in After(h, n + 1)
    ensures DataAgrees(h, n + 1, t)
  {
    AfterIsConsistent(h, n);
  }

  /** In every serial run the data a token is stored with is that which its history gives it. */
  lemma {:induction false} TableHoldsData(h: seq<Op>, n: nat, t: TokenId)
    requires Fresh(h) && n <= |h|
    ensures DataAgrees(h, n, t)
    decreases n
  {
    if n > 0 {
      var m := n - 1;
      forall u ensures DataAgrees(h, m, u) { TableHoldsData(h, m, u); }
      StepDataAgrees(h, m, t);
    }
  }

  // ---------- single-use tokens ----------

  ghost predicate AcceptedAt(h: seq<Op>, j: nat, t: TokenId) {
    j < |h| && h[j].Verify? && h[j].tok == t && Accepts(After(h, j), t, h[j].now)
  }

  lemma LifeIsMinted(h: seq<Op>, n: nat, t: TokenId)
    requires n <= |h| && Life(h, n, t).Some?
    ensures Minted(h[Life(h, n, t).value]) == Some(t)
  {
  }

  /** A single-use token is accepted at most once in a serial run. */
  lemma SingleUseOnce(h: seq<Op>, j: nat, k: nat, t: TokenId)
    requires Fresh(h) && j < k < |h|
    requires AcceptedAt(h, j, t) && After(h, j)[t].singleUse
    ensures !AcceptedAt(h, k, t)
  {
    TableAgrees(h, j, t);
    TableAgrees(h, k, t);
    var i := Life(h, j, t).value;
    LifeIsMinted(h, j, t);
    AcceptsInDate(h, j, t, h[j].now);
    assert Ends(h, j, t, i);
    GoneForGood(h, i, j + 1, k, t);
  }

  /** ... and never after a newer one was issued for its type and ref_id. */
  lemma SingleUseSuperseded(h: seq<Op>, i: nat, j: nat, k: nat)
    requires Fresh(h) && i < j < k < |h|
    requires h[i].New? && h[j].New? && h[i].args.singleUse && h[j].args.singleUse
    requires h[i].args.typ == h[j].args.typ && h[i].args.ref == h[j].args.ref
    requires Issues(h, i, h[i].tok) && Issues(h, j, h[j].tok)
    ensures !AcceptedAt(h, k, h[i].tok)
  {
    var t := h[i].tok;
    TableAgrees(h, k, t);
    GoneForGood(h, i, i + 1, j, t);
    assert Life(h, i + 1, t) == Some(i);
    assert Minted(h[j]) != Some(t);
    assert Ends(h, j, t, i);
    GoneForGood(h, i, j + 1, k, t);
  }
}
