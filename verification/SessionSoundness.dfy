/** Authentication over serial runs, told from the audit trail alone: a login authenticates
    its cookie, and nothing else does, until the session expires or one of the events that
    revoke it happens. */
module SessionSoundness {
  import opened Wrappers
  import opened TokenTable
  import opened Sessions

  /** What may happen between and around requests. */
  datatype Event =
    | Arrive(r: Request)
    | TokenCall(op: Op)          // other code of the application using the tokens package
    | AddAccount(id: AccountId)
    | DropAccount(id: AccountId)   // accounts.Delete, not through the middleware

  /** Other code mints no tokens of the session type; it may do anything else. */
  predicate Foreign(cfg: Config, tab: Table, op: Op) {
    match op
    case New(_, args, _) => args.typ != cfg.sessionType
    case Rotate(prev, _, _, _) => prev in tab ==> tab[prev].typ != cfg.sessionType
    case _ => true
  }

  /** The row of t was lost: a failed login deleted it, or t comes from a login that went to
      renew a session whose row was lost, and found none. */
  predicate Lost(trail: seq<Audit>, t: TokenId) {
    trail != [] &&
    var front, last := trail[..|trail| - 1], trail[|trail| - 1];
    Lost(front, t) || last == FailedLogin(t)
    || (last.LoggedIn? && last.tok == t && last.renewed && Lost(front, last.prev))
  }

  /** The token string names no row, and not a lost one either. */
  predicate NewToken(w: World, tok: TokenId) {
    tok != "" && tok !in w.tokens && !Lost(w.trail, tok)
  }

  /** The token strings a handler generates are new when it does. */
  ghost predicate FreshLogins(cfg: Config, x: Exchange, h: Handler)
    decreases h
  {
    match h
    case Return => true
    case Call(a, inner, next) =>
      var y := Do(cfg, x, a);
      var z := if y.stopped then y else Handle(cfg, y, inner);
      && (a.Login? ==> NewToken(x.w, a.tok))
      && (!y.stopped ==> FreshLogins(cfg, y, inner))
      && FreshLogins(cfg, z.(account := x.account, stopped := false), next)
  }

  ghost predicate FreshRequest(cfg: Config, w: World, r: Request) {
    !Load(cfg, w, r).stopped ==>
      FreshLogins(cfg, Load(cfg, w, r), r.handler) && NewToken(Handled(cfg, w, r).w, r.anonymousTok)
  }

  ghost predicate Allowed(cfg: Config, w: World, e: Event) {
    match e
    case TokenCall(op) => Foreign(cfg, w.tokens, op)
    case Arrive(r) => FreshRequest(cfg, w, r)
    case AddAccount(id) => id != NIL_REF
    case DropAccount(_) => true
  }

  function Recorded(w: World, op: Op, tab: Table): World {
    w.(tokens := tab, trail := w.trail + [Called(op)])
  }

  ghost function Happen(cfg: Config, w: World, e: Event): World {
    match e
    case Arrive(r) => Serve(cfg, w, r).w
    case TokenCall(op) => Recorded(w, op, Apply(w.tokens, op))
    case AddAccount(id) => w.(accounts := w.accounts + {id})
    case DropAccount(id) => w.(accounts := w.accounts - {id})
  }

  ghost function Run(cfg: Config, events: seq<Event>): World {
    if events == [] then World(map[], {}, [])
    else Happen(cfg, Run(cfg, events[..|events| - 1]), events[|events| - 1])
  }

  ghost predicate AllAllowed(cfg: Config, events: seq<Event>) {
    forall i :: 0 <= i < |events| ==> Allowed(cfg, Run(cfg, events[..i]), events[i])
  }

  /** What ends the session t of acct that expires at expiry. */
  predicate Revokes(cfg: Config, e: Audit, t: TokenId, acct: AccountId, expiry: int) {
    match e
    case LoggedIn(_, _, _, prev, _) => prev == t
    case LoggedOut(tok) => tok == t
    case Deleted(a) => a == acct
    case FailedLogin(prev) => prev == t
    case Swept(a) => a == acct
    case Called(op) =>
      match op
      case Delete(tok) => tok == t
      case DeleteByTypeRef(typ, ref) => typ == cfg.sessionType && ref == acct
      case Cleanup(now) => expiry < now
      case _ => false
  }

  /** A login that went to renew a session whose row had been lost. */
  predicate IsHollow(trail: seq<Audit>, i: nat)
    requires i < |trail| && trail[i].LoggedIn?
  {
    trail[i].renewed && Lost(trail[..i], trail[i].prev)
  }

  /** Record i is a login of acct that minted t, not a hollow one, and nothing has revoked it
      since. */
  predicate VouchedBy(cfg: Config, trail: seq<Audit>, i: nat, t: TokenId, acct: AccountId, expiry: int) {
    && i < |trail| && trail[i].LoggedIn? && !IsHollow(trail, i)
    && trail[i].tok == t && trail[i].acct == acct && trail[i].expiry == expiry
    && forall j :: i < j < |trail| ==> !Revokes(cfg, trail[j], t, acct, expiry)
  }

  ghost predicate Vouched(cfg: Config, trail: seq<Audit>, t: TokenId, row: Row) {
    exists i: nat :: VouchedBy(cfg, trail, i, t, row.ref, row.expiry)
  }

  ghost predicate SoundRow(cfg: Config, trail: seq<Audit>, t: TokenId, row: Row) {
    row.typ == cfg.sessionType ==>
      !row.singleUse && !Lost(trail, t) && (row.ref != NIL_REF ==> Vouched(cfg, trail, t, row))
  }

  /** The row of an authenticated session. */
  predicate SessionRow(cfg: Config, tab: Table, t: TokenId, acct: AccountId, expiry: int) {
    && t in tab && acct != NIL_REF
    && tab[t].typ == cfg.sessionType && !tab[t].singleUse && tab[t].ref == acct && tab[t].expiry == expiry
    && tab[t].idle.None? && tab[t].idleDuration.None?
  }

  /** Every login that nothing has revoked still has its row. */
  ghost predicate Complete(cfg: Config, w: World) {
    forall i: nat, t, acct, expiry :: VouchedBy(cfg, w.trail, i, t, acct, expiry)
      ==> SessionRow(cfg, w.tokens, t, acct, expiry)
  }

  /** ... and every session row is anonymous or has such a login. */
  ghost predicate Sound(cfg: Config, w: World) {
    && "" !in w.tokens && NIL_REF !in w.accounts
    && (forall t :: t in w.tokens ==> SoundRow(cfg, w.trail, t, w.tokens[t]))
  }

  ghost predicate Exact(cfg: Config, w: World) {
    Sound(cfg, w) && Complete(cfg, w)
  }

  /** The session in the context has its row, unless a failed login took it. */
  ghost predicate SoundExchange(cfg: Config, x: Exchange) {
    && Exact(cfg, x.w)
    && (x.cell.id in x.w.tokens ==> x.w.tokens[x.cell.id].typ == cfg.sessionType)
    && (x.cell.id != "" && x.cell.id !in x.w.tokens ==> Lost(x.w.trail, x.cell.id))
  }

  lemma LostAfter(trail: seq<Audit>, e: Audit, t: TokenId)
    ensures Lost(trail + [e], t)
        <==> Lost(trail, t) || e == FailedLogin(t)
             || (e.LoggedIn? && e.tok == t && e.renewed && Lost(trail, e.prev))
  {
    assert (trail + [e])[..|trail|] == trail;
  }

  lemma SoundAfter(cfg: Config, trail: seq<Audit>, e: Audit, t: TokenId, row: Row)
    requires SoundRow(cfg, trail, t, row) && e != FailedLogin(t) && !(e.LoggedIn? && e.tok == t)
    requires row.typ == cfg.sessionType && row.ref != NIL_REF ==> !Revokes(cfg, e, t, row.ref, row.expiry)
    ensures SoundRow(cfg, trail + [e], t, row)
  {
    LostAfter(trail, e, t);
    if row.typ == cfg.sessionType && row.ref != NIL_REF {
      var i: nat :| VouchedBy(cfg, trail, i, t, row.ref, row.expiry);
      assert (trail + [e])[..i] == trail[..i];
      assert VouchedBy(cfg, trail + [e], i, t, row.ref, row.expiry);
    }
  }

  lemma LoginVouches(cfg: Config, trail: seq<Audit>, e: Audit, t: TokenId, row: Row)
    requires e.LoggedIn? && e.tok == t && e.acct == row.ref && e.expiry == row.expiry && !row.singleUse
    requires !Lost(trail, t) && (e.renewed ==> !Lost(trail, e.prev))
    ensures SoundRow(cfg, trail + [e], t, row)
  {
    LostAfter(trail, e, t);
    assert (trail + [e])[..|trail|] == trail;
    assert VouchedBy(cfg, trail + [e], |trail|, t, row.ref, row.expiry);
  }

  // ---------- completeness, record by record ----------

  lemma VouchedBefore(cfg: Config, trail: seq<Audit>, e: Audit, i: nat, t: TokenId, acct: AccountId, expiry: int)
    requires VouchedBy(cfg, trail + [e], i, t, acct, expiry)
    ensures i < |trail| ==> VouchedBy(cfg, trail, i, t, acct, expiry) && !Revokes(cfg, e, t, acct, expiry)
    ensures i == |trail| ==> e.LoggedIn? && e.tok == t && e.acct == acct && e.expiry == expiry
                             && (e.renewed ==> !Lost(trail, e.prev))
  {
    var all := trail + [e];
    assert all[..|trail|] == trail;
    if i < |trail| {
      assert all[i] == trail[i] && all[|trail|] == e && all[..i] == trail[..i];
      forall j | i < j < |trail| ensures !Revokes(cfg, trail[j], t, acct, expiry) {
        assert all[j] == trail[j];
      }
    }
  }

  /** A record that starts no session keeps completeness if every row it does not revoke
      stays. */
  lemma CompleteAfter(cfg: Config, w: World, e: Audit, w': World)
    requires Complete(cfg, w) && w'.trail == w.trail + [e] && !e.LoggedIn?
    requires forall t, acct, expiry :: SessionRow(cfg, w.tokens, t, acct, expiry) && !Revokes(cfg, e, t, acct, expiry)
               ==> SessionRow(cfg, w'.tokens, t, acct, expiry)
    ensures Complete(cfg, w')
  {
    forall i: nat, t, acct, expiry | VouchedBy(cfg, w'.trail, i, t, acct, expiry)
      ensures SessionRow(cfg, w'.tokens, t, acct, expiry)
    {
      VouchedBefore(cfg, w.trail, e, i, t, acct, expiry);
    }
  }

  /** A login with a fresh token string keeps it too: its own row is there, unless it is
      hollow, and the one it replaced is revoked. */
  lemma CompleteAfterLogin(cfg: Config, w: World, e: Audit, w': World)
    requires Complete(cfg, w) && w'.trail == w.trail + [e] && e.LoggedIn?
    requires SessionRow(cfg, w'.tokens, e.tok, e.acct, e.expiry) || (e.renewed && Lost(w.trail, e.prev))
    requires forall t, acct, expiry :: SessionRow(cfg, w.tokens, t, acct, expiry) && t != e.prev
               ==> SessionRow(cfg, w'.tokens, t, acct, expiry)
    ensures Complete(cfg, w')
  {
    forall i: nat, t, acct, expiry | VouchedBy(cfg, w'.trail, i, t, acct, expiry)
      ensures SessionRow(cfg, w'.tokens, t, acct, expiry)
    {
      VouchedBefore(cfg, w.trail, e, i, t, acct, expiry);
    }
  }

  lemma CompleteUnchanged(cfg: Config, w: World, w': World)
    requires Complete(cfg, w) && w'.trail == w.trail
    requires forall t, acct, expiry :: SessionRow(cfg, w.tokens, t, acct, expiry)
               ==> SessionRow(cfg, w'.tokens, t, acct, expiry)
    ensures Complete(cfg, w')
  {
  }

  // ---------- calls of the tokens package ----------

  /** A call of other code ends exactly the sessions it is said to revoke, and changes no
      other one. */
  lemma CallRevokes(cfg: Config, tab: Table, op: Op, t: TokenId, acct: AccountId, expiry: int)
    requires Foreign(cfg, tab, op) && SessionRow(cfg, tab, t, acct, expiry)
    ensures t in Apply(tab, op) <==> !Revokes(cfg, Called(op), t, acct, expiry)
    ensures t in Apply(tab, op) ==> SessionRow(cfg, Apply(tab, op), t, acct, expiry)
  {
  }

  lemma CallIsSoundAt(cfg: Config, w: World, op: Op, t: TokenId)
    requires Sound(cfg, w) && Foreign(cfg, w.tokens, op) && t in Apply(w.tokens, op)
    ensures SoundRow(cfg, w.trail, t, Apply(w.tokens, op)[t])
  {
    if t in w.tokens { assert SoundRow(cfg, w.trail, t, w.tokens[t]); }
  }

  /** A row that a call leaves is not one it revokes. */
  lemma CallLeaves(cfg: Config, tab: Table, op: Op, t: TokenId)
    requires Foreign(cfg, tab, op) && t in Apply(tab, op)
    ensures var row := Apply(tab, op)[t];
            row.typ == cfg.sessionType ==> !Revokes(cfg, Called(op), t, row.ref, row.expiry)
  {
  }

  lemma CallIsSound(cfg: Config, w: World, op: Op)
    requires Exact(cfg, w) && Foreign(cfg, w.tokens, op)
    ensures Exact(cfg, Recorded(w, op, Apply(w.tokens, op)))
  {
    var tab := Apply(w.tokens, op);
    var w' := Recorded(w, op, tab);
    forall t | t in tab ensures SoundRow(cfg, w'.trail, t, tab[t]) {
      CallIsSoundAt(cfg, w, op, t);
      CallLeaves(cfg, w.tokens, op, t);
      SoundAfter(cfg, w.trail, Called(op), t, tab[t]);
    }
    forall t, acct, expiry | SessionRow(cfg, w.tokens, t, acct, expiry) && !Revokes(cfg, Called(op), t, acct, expiry)
      ensures SessionRow(cfg, tab, t, acct, expiry)
    {
      CallRevokes(cfg, w.tokens, op, t, acct, expiry);
    }
    CompleteAfter(cfg, w, Called(op), w');
    NoEmptyToken(w.tokens, op);
  }

  lemma NoEmptyToken(tab: Table, op: Op)
    requires "" !in tab
    ensures "" !in Apply(tab, op)
  {
  }

  /** A call that can end no session needs no record. */
  lemma QuietCallIsSound(cfg: Config, w: World, op: Op)
    requires Exact(cfg, w) && (op.Verify? || op.UpdateData?)
    ensures Exact(cfg, w.(tokens := Apply(w.tokens, op)))
  {
    var tab := Apply(w.tokens, op);
    forall t | t in tab ensures SoundRow(cfg, w.trail, t, tab[t]) {
      CallIsSoundAt(cfg, w, op, t);
    }
    forall t, acct, expiry | SessionRow(cfg, w.tokens, t, acct, expiry) ensures SessionRow(cfg, tab, t, acct, expiry) {
      CallRevokes(cfg, w.tokens, op, t, acct, expiry);
    }
    CompleteUnchanged(cfg, w, w.(tokens := tab));
    NoEmptyToken(w.tokens, op);
  }

  // ---------- one request ----------

  /** A login that succeeded, with the table it leaves. */
  lemma LoginIsSound(cfg: Config, x: Exchange, a: Action, tab: Table, data: Json, renewed: bool)
    requires a.Login? && SoundExchange(cfg, x) && a.acct != NIL_REF && NewToken(x.w, a.tok)
    requires SessionRow(cfg, tab, a.tok, a.acct, Expiry(AuthenticatedArgs(cfg, a.acct, a.rememberMe, data), a.now))
    requires forall t :: t in tab && t != a.tok ==> t in x.w.tokens && t != x.cell.id && tab[t] == x.w.tokens[t]
    requires forall t :: t in x.w.tokens && t != x.cell.id ==> t in tab
    requires renewed ==> !Lost(x.w.trail, x.cell.id)
    ensures SoundExchange(cfg, LoggedInAs(cfg, x, a, tab, data, renewed))
  {
    var y := LoggedInAs(cfg, x, a, tab, data, renewed);
    var e := y.w.trail[|x.w.trail|];
    forall t | t in tab ensures SoundRow(cfg, y.w.trail, t, tab[t]) {
      if t == a.tok { LoginVouches(cfg, x.w.trail, e, t, tab[t]); }
      else { SoundAfter(cfg, x.w.trail, e, t, x.w.tokens[t]); }
    }
    CompleteAfterLogin(cfg, x.w, e, y.w);
  }

  lemma CreateIsSound(cfg: Config, x: Exchange, a: Action)
    requires a.Login? && SoundExchange(cfg, x) && !x.stopped && MayLogin(cfg, x, a) && NewToken(x.w, a.tok)
    requires x.account.Some? || x.cell.id == ""
    ensures SoundExchange(cfg, CreateSession(cfg, x, a))
  {
    var y := CreateSession(cfg, x, a);
    var over := x.account.Some? && x.cell.id != "";
    var tab := if over then x.w.tokens - {x.cell.id} else x.w.tokens;
    var data := if x.account.Some? then NULL_JSON else x.cell.data;
    var args := AuthenticatedArgs(cfg, a.acct, a.rememberMe, data);
    if !y.stopped {
      LoginIsSound(cfg, x, a, Apply(tab, New(a.tok, args, a.now)), data, false);
    } else if over && !a.faults.delete {
      FailureIsSound(cfg, x, y);
    }
  }

  lemma FailureIsSound(cfg: Config, x: Exchange, y: Exchange)
    requires SoundExchange(cfg, x) && y.cell == x.cell && y.w.accounts == x.w.accounts
    requires y.w.tokens == x.w.tokens - {x.cell.id} && y.w.trail == x.w.trail + [FailedLogin(x.cell.id)]
    ensures SoundExchange(cfg, y)
  {
    forall t | t in y.w.tokens ensures SoundRow(cfg, y.w.trail, t, y.w.tokens[t]) {
      SoundAfter(cfg, x.w.trail, FailedLogin(x.cell.id), t, x.w.tokens[t]);
    }
    CompleteAfter(cfg, x.w, FailedLogin(x.cell.id), y.w);
  }

  lemma RotateIsSound(cfg: Config, x: Exchange, a: Action)
    requires a.Login? && SoundExchange(cfg, x) && !x.stopped && MayLogin(cfg, x, a) && NewToken(x.w, a.tok)
    requires x.account.None? && x.cell.id != ""
    ensures SoundExchange(cfg, RotateSession(cfg, x, a))
  {
    var y := RotateSession(cfg, x, a);
    if !y.stopped {
      var args := AuthenticatedArgs(cfg, a.acct, a.rememberMe, x.cell.data);
      if x.cell.id in x.w.tokens {
        assert SoundRow(cfg, x.w.trail, x.cell.id, x.w.tokens[x.cell.id]);
        LoginIsSound(cfg, x, a, Apply(x.w.tokens, Rotate(x.cell.id, a.tok, args, a.now)), x.cell.data, true);
      } else {
        HollowIsSound(cfg, x, a, y);
      }
    }
  }

  /** A login over a session whose row is lost leaves the tables alone, and its token names
      no row. */
  lemma HollowIsSound(cfg: Config, x: Exchange, a: Action, y: Exchange)
    requires a.Login? && SoundExchange(cfg, x) && NewToken(x.w, a.tok)
    requires x.cell.id != "" && x.cell.id !in x.w.tokens
    requires y == LoggedInAs(cfg, x, a, x.w.tokens, x.cell.data, true)
    ensures SoundExchange(cfg, y)
  {
    var e := y.w.trail[|x.w.trail|];
    forall t | t in y.w.tokens ensures SoundRow(cfg, y.w.trail, t, y.w.tokens[t]) {
      SoundAfter(cfg, x.w.trail, e, t, x.w.tokens[t]);
    }
    CompleteAfterLogin(cfg, x.w, e, y.w);
    LostAfter(x.w.trail, e, a.tok);
  }

  lemma EndIsSound(cfg: Config, x: Exchange, y: Exchange, e: Audit)
    requires SoundExchange(cfg, x) && y.w.trail == x.w.trail + [e] && !e.LoggedIn? && !e.FailedLogin?
    requires y.cell.id == "" && NIL_REF !in y.w.accounts
    requires forall t :: t in y.w.tokens ==> t in x.w.tokens && y.w.tokens[t] == x.w.tokens[t]
    requires forall t :: t in x.w.tokens && x.w.tokens[t].typ == cfg.sessionType ==>
               (t in y.w.tokens <==> !Revokes(cfg, e, t, x.w.tokens[t].ref, x.w.tokens[t].expiry))
    ensures SoundExchange(cfg, y)
  {
    forall t | t in y.w.tokens ensures SoundRow(cfg, y.w.trail, t, y.w.tokens[t]) {
      SoundAfter(cfg, x.w.trail, e, t, x.w.tokens[t]);
    }
    CompleteAfter(cfg, x.w, e, y.w);
  }

  lemma DoIsSound(cfg: Config, x: Exchange, a: Action)
    requires SoundExchange(cfg, x) && !x.stopped && (a.Login? ==> NewToken(x.w, a.tok))
    ensures SoundExchange(cfg, Do(cfg, x, a))
  {
    var y := Do(cfg, x, a);
    if a.Login? {
      if MayLogin(cfg, x, a) {
        if x.account.Some? || x.cell.id == "" { CreateIsSound(cfg, x, a); } else { RotateIsSound(cfg, x, a); }
      }
    } else if a.Logout? && !y.stopped {
      EndIsSound(cfg, x, y, LoggedOut(x.cell.id));
    } else if a.DeleteAccount? && !y.stopped {
      EndIsSound(cfg, x, y, Deleted(x.account.value));
    }
  }

  lemma {:induction false} HandleIsSound(cfg: Config, x: Exchange, h: Handler)
    requires SoundExchange(cfg, x) && !x.stopped && FreshLogins(cfg, x, h)
    ensures SoundExchange(cfg, Handle(cfg, x, h))
    decreases h
  {
    if h.Call? {
      var y := Do(cfg, x, h.a);
      DoIsSound(cfg, x, h.a);
      var z := if y.stopped then y else Handle(cfg, y, h.inner);
      if !y.stopped { HandleIsSound(cfg, y, h.inner); }
      OtherContext(cfg, z, x.account);
      HandleIsSound(cfg, z.(account := x.account, stopped := false), h.next);
    }
  }

  lemma OtherContext(cfg: Config, z: Exchange, account: Option<AccountId>)
    requires SoundExchange(cfg, z)
    ensures SoundExchange(cfg, z.(account := account, stopped := false))
  {
  }

  lemma LoadIsSound(cfg: Config, w: World, r: Request)
    requires Exact(cfg, w)
    ensures SoundExchange(cfg, Load(cfg, w, r))
  {
    if r.cookie.Some? && !r.faults.verify {
      var t := r.cookie.value;
      if t in w.tokens { assert SoundRow(cfg, w.trail, t, w.tokens[t]); }
      QuietCallIsSound(cfg, w, Verify(t, r.now));
      var x := Exchange(w.(tokens := Apply(w.tokens, Verify(t, r.now))), None, ANONYMOUS, None, false);
      if IsSession(cfg, w.tokens, t, r.now) && Load(cfg, w, r).w.trail != w.trail {
        EndIsSound(cfg, x, Load(cfg, w, r), Swept(w.tokens[t].ref));
      }
    }
  }

  lemma WriteBackIsSound(cfg: Config, x: Exchange, r: Request)
    requires SoundExchange(cfg, x) && NewToken(x.w, r.anonymousTok)
    ensures Exact(cfg, WriteBack(cfg, x, r).w)
  {
    var y := WriteBack(cfg, x, r).w;
    if y.tokens != x.w.tokens && x.cell.id != "" {
      QuietCallIsSound(cfg, x.w, UpdateData(x.cell.id, x.cell.data));
    } else if y.tokens != x.w.tokens {
      forall t | t in y.tokens ensures SoundRow(cfg, y.trail, t, y.tokens[t]) {
        if t in x.w.tokens { assert SoundRow(cfg, x.w.trail, t, x.w.tokens[t]); }
      }
      CompleteUnchanged(cfg, x.w, y);
    }
  }

  lemma RequestIsSound(cfg: Config, w: World, r: Request)
    requires Exact(cfg, w) && FreshRequest(cfg, w, r)
    ensures Exact(cfg, Serve(cfg, w, r).w)
  {
    LoadIsSound(cfg, w, r);
    if !Load(cfg, w, r).stopped {
      HandleIsSound(cfg, Load(cfg, w, r), r.handler);
      WriteBackIsSound(cfg, Handled(cfg, w, r), r);
    }
  }

  /** A hollow login: in an anonymous context, a login, inside it another one that fails once
      the session is deleted, and after both a third. That one succeeds and sets a cookie,
      which names no row. */
  lemma HollowLogin(cfg: Config, x: Exchange, a: Action, b: Action, c: Action)
    requires a.Login? && b.Login? && c.Login? && !x.stopped && x.account.None?
    requires var y := Do(cfg, x, a);
             !y.stopped && MayLogin(cfg, y, b) && !b.faults.delete && b.faults.mint && a.tok != ""
             && MayLogin(cfg, y, c) && !c.faults.mint && c.tok !in y.w.tokens
    ensures var z := Handle(cfg, x, Call(a, Call(b, Return, Return), Call(c, Return, Return)));
            z.cookie == Some(c.tok) && c.tok !in z.w.tokens
  {
    var y := Do(cfg, x, a);
    var y2 := Do(cfg, y, b);
    var z1 := y2.(account := y.account, stopped := false);
    assert Handle(cfg, y, Call(b, Return, Return)) == Handle(cfg, z1, Return) == z1;
    var z2 := z1.(account := x.account, stopped := false);
    assert z2.w.tokens == y.w.tokens - {a.tok} && z2.cell.id == a.tok;
    var z3 := Do(cfg, z2, c);
    assert Handle(cfg, z2, Call(c, Return, Return)) == z3.(account := x.account, stopped := false);
  }

  // ---------- every run ----------

  lemma {:induction false} RunIsSound(cfg: Config, events: seq<Event>)
    requires AllAllowed(cfg, events)
    ensures Exact(cfg, Run(cfg, events))
    decreases |events|
  {
    if events != [] {
      var n := |events| - 1;
      var front, e := events[..n], events[n];
      assert AllAllowed(cfg, front) by {
        forall i | 0 <= i < n ensures Allowed(cfg, Run(cfg, front[..i]), front[i]) {
          assert front[..i] == events[..i];
          assert Allowed(cfg, Run(cfg, events[..i]), events[i]);
        }
      }
      RunIsSound(cfg, front);
      var w := Run(cfg, front);
      assert Allowed(cfg, Run(cfg, events[..n]), events[n]);
      match e
      case Arrive(r) => RequestIsSound(cfg, w, r);
      case TokenCall(op) => CallIsSound(cfg, w, op);
      case AddAccount(_) => SameTokens(cfg, w, Run(cfg, events));
      case DropAccount(_) => SameTokens(cfg, w, Run(cfg, events));
    }
  }

  lemma SameTokens(cfg: Config, w: World, w': World)
    requires Exact(cfg, w) && w'.tokens == w.tokens && w'.trail == w.trail && NIL_REF !in w'.accounts
    ensures Exact(cfg, w')
  {
    forall t | t in w'.tokens ensures SoundRow(cfg, w'.trail, t, w'.tokens[t]) {
      assert SoundRow(cfg, w.trail, t, w.tokens[t]);
    }
    CompleteUnchanged(cfg, w, w');
  }

  /** t was minted by a login as acct that is not hollow, its absolute expiry has not passed,
      and since then nobody logged out of t, logged in over it or failed to after deleting
      it, deleted acct through the middleware or had its sessions swept away for want of it,
      and no other code deleted t, deleted the sessions of acct or cleaned up after its
      expiry. */
  ghost predicate Authentic(cfg: Config, w: World, t: TokenId, acct: AccountId, now: int) {
    exists i: nat, expiry: int :: VouchedBy(cfg, w.trail, i, t, acct, expiry) && now < expiry
  }

  /** After any run, Session puts account A in the context exactly for the cookies that a
      login as A vouches for, as long as A exists and the two queries go through. */
  lemma AuthenticatedExactly(cfg: Config, events: seq<Event>, r: Request, acct: AccountId)
    requires AllAllowed(cfg, events)
    ensures var w := Run(cfg, events);
            Load(cfg, w, r).account == Some(acct)
            <==> acct in w.accounts && r.cookie.Some? && Authentic(cfg, w, r.cookie.value, acct, r.now)
                 && !r.faults.verify && !r.faults.lookup
  {
    RunIsSound(cfg, events);
    var w := Run(cfg, events);
    if Load(cfg, w, r).account == Some(acct) {
      var t := r.cookie.value;
      assert SoundRow(cfg, w.trail, t, w.tokens[t]);
      var i: nat :| VouchedBy(cfg, w.trail, i, t, w.tokens[t].ref, w.tokens[t].expiry);
    }
    if acct in w.accounts && r.cookie.Some? && Authentic(cfg, w, r.cookie.value, acct, r.now) {
      var i: nat, expiry: int :| VouchedBy(cfg, w.trail, i, r.cookie.value, acct, expiry) && r.now < expiry;
      assert SessionRow(cfg, w.tokens, r.cookie.value, acct, expiry);
    }
  }
}
