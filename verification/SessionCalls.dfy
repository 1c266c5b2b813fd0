/** What the calls of a handler do, and what they ask for, in the terms of the request
    itself: passwords, accounts, and durations in seconds. */
module SessionCalls {
  import opened Wrappers
  import opened TokenTable
  import opened Sessions
  import opened SessionSoundness

  // ---------- one call ----------

  /** 30 days, or 12 hours, in microseconds. */
  function Lifetime(rememberMe: bool): int {
    (if rememberMe then 2_592_000 else 43_200) * 1_000_000
  }

  /** The rows of one table are those of another, but for these tokens. */
  ghost predicate SameRowsBut(tab: Table, next: Table, toks: set<TokenId>) {
    forall t :: t !in toks ==> (t in tab <==> t in next) && (t in tab ==> tab[t] == next[t])
  }

  /** The session in the context may be renewed: its row, if any, is a multi-use one of the
      session type. */
  predicate Renewable(cfg: Config, x: Exchange) {
    x.cell.id in x.w.tokens ==> !x.w.tokens[x.cell.id].singleUse && x.w.tokens[x.cell.id].typ == cfg.sessionType
  }

  predicate IsTokenString(cfg: Config, x: Exchange, tok: TokenId) {
    10 <= |tok| <= 100 && 0 < |cfg.sessionType| <= 100 && tok !in x.w.tokens && tok != x.cell.id
  }

  /** A login succeeds exactly with the right password for an account that exists, if it may
      be remembered when it asks to be and none of the database calls it makes fails. */
  lemma LoginSucceedsExactly(cfg: Config, x: Exchange, a: Action)
    requires a.Login? && !x.stopped && Renewable(cfg, x) && IsTokenString(cfg, x, a.tok)
    ensures !Do(cfg, x, a).stopped
        <==> a.passwordOk && a.acct in x.w.accounts && (a.rememberMe ==> cfg.allowRememberMe)
             && !a.faults.lookup && !a.faults.mint && (x.account.Some? && x.cell.id != "" ==> !a.faults.delete)
    ensures var y := Do(cfg, x, a);
            y.stopped ==> y.account == x.account && y.cell == x.cell && y.cookie == x.cookie
                          && y.w.accounts == x.w.accounts && SameRowsBut(x.w.tokens, y.w.tokens, {x.cell.id})
  {
  }

  /** When it does, the account is in the context, the cookie is that of a session of this
      account for 12 hours or 30 days, with the data of the anonymous session before it or
      none, and the session before it is gone. Only a login that goes to renew a session
      whose row is missing has no row. */
  lemma LoginLogsIn(cfg: Config, x: Exchange, a: Action)
    requires a.Login? && !x.stopped && Renewable(cfg, x) && IsTokenString(cfg, x, a.tok) && !Do(cfg, x, a).stopped
    ensures var y := Do(cfg, x, a);
            && y.account == Some(a.acct) && y.cookie == Some(a.tok) && y.cell.id == a.tok && !y.cell.dirty
            && y.cell.data == (if x.account.Some? then "null" else x.cell.data)
            && (x.cell.id != "" ==> x.cell.id !in y.w.tokens)
            && SameRowsBut(x.w.tokens, y.w.tokens, {x.cell.id, a.tok}) && y.w.accounts == x.w.accounts
            && (x.account.Some? || x.cell.id == "" || x.cell.id in x.w.tokens <==> a.tok in y.w.tokens)
            && (a.tok in y.w.tokens ==>
                  y.w.tokens[a.tok]
                  == Row(cfg.sessionType, false, a.acct, a.now + Lifetime(a.rememberMe), None, None, y.cell.data))
  {
  }

  /** A logout succeeds exactly in an authenticated context with a saved session; it takes
      the account, the session, its row and the cookie away. */
  lemma LogoutExactly(cfg: Config, x: Exchange, fault: bool)
    requires !x.stopped
    ensures var y := Do(cfg, x, Logout(fault));
            && (!y.stopped <==> x.account.Some? && x.cell.id != "" && !fault)
            && (y.stopped ==> y == x.(stopped := true))
            && (!y.stopped ==> y.account == None && y.cell.id == "" && y.cell.data == "null" && y.cookie == Some("")
                               && x.cell.id !in y.w.tokens && SameRowsBut(x.w.tokens, y.w.tokens, {x.cell.id})
                               && y.w.accounts == x.w.accounts)
  {
  }

  /** A deletion succeeds exactly with the password of the account in the context; it removes
      that account and no other, all of its sessions and no other row, the session in the
      context and the cookie. */
  lemma DeleteExactly(cfg: Config, x: Exchange, passwordOk: bool, fault: bool)
    requires !x.stopped
    ensures var y := Do(cfg, x, DeleteAccount(passwordOk, fault));
            && (!y.stopped <==> x.account.Some? && passwordOk && !fault)
            && (y.stopped ==> y == x.(stopped := true))
            && (!y.stopped ==>
                  && y.account == x.account && y.cell.id == "" && y.cell.data == "null" && y.cookie == Some("")
                  && (forall b :: b in y.w.accounts <==> b in x.w.accounts && b != x.account.value)
                  && (forall t :: t in y.w.tokens
                        <==> t in x.w.tokens
                             && !(x.w.tokens[t].typ == cfg.sessionType && x.w.tokens[t].ref == x.account.value))
                  && (forall t :: t in y.w.tokens ==> y.w.tokens[t] == x.w.tokens[t]))
  {
  }

  // ---------- loading ----------

  /** The cookie names a session of this account (0 for an anonymous one) that has expired
      neither for good nor by idling. */
  predicate NamesSession(cfg: Config, w: World, r: Request, acct: Ref) {
    && r.cookie.Some? && r.cookie.value in w.tokens
    && var row := w.tokens[r.cookie.value];
       row.typ == cfg.sessionType && row.ref == acct
       && r.now < row.expiry && (row.idle.Some? ==> r.now < row.idle.value)
  }

  /** Loading stops exactly when a query or a deletion it has to make fails, and otherwise
      puts in the context the session of the cookie, if it is anonymous or its account
      exists. */
  lemma LoadExactly(cfg: Config, w: World, r: Request, acct: Ref)
    requires NamesSession(cfg, w, r, acct)
    ensures var x, t := Load(cfg, w, r), r.cookie.value;
            && (!x.stopped <==> !r.faults.verify
                                && (acct != 0 ==> !r.faults.lookup && (acct !in w.accounts ==> !r.faults.sweep)))
            && (!x.stopped && (acct == 0 || acct in w.accounts) ==>
                  && x.cell == Cell(t, w.tokens[t].data, false, acct) && x.w.trail == w.trail
                  && x.account == (if acct == 0 then None else Some(acct))
                  && SameRowsBut(w.tokens, x.w.tokens, {t}))
  {
  }

  /** A session of an account that does not exist loads as none, and every session of that
      account goes. */
  lemma MissingAccountIsSwept(cfg: Config, w: World, r: Request, acct: Ref)
    requires NamesSession(cfg, w, r, acct) && acct != 0 && acct !in w.accounts && !Load(cfg, w, r).stopped
    ensures var x := Load(cfg, w, r);
            && x.account == None && x.cell == Cell("", "null", false, 0) && x.cookie == None
            && (forall t :: t in x.w.tokens
                  <==> t in w.tokens && !(w.tokens[t].typ == cfg.sessionType && w.tokens[t].ref == acct))
            && (forall t :: t in x.w.tokens ==> x.w.tokens[t] == w.tokens[t])
  {
  }

  /** Any other cookie, and none at all, load as an anonymous session that is not saved. */
  lemma OtherCookieLoadsNone(cfg: Config, w: World, r: Request)
    requires forall acct :: !NamesSession(cfg, w, r, acct)
    ensures var x := Load(cfg, w, r);
            && (!x.stopped <==> r.cookie.Some? ==> !r.faults.verify)
            && x.account == None && x.cell == Cell("", "null", false, 0) && x.w.trail == w.trail
            && (r.cookie == None ==> x.w == w)
            && (r.cookie.Some? ==> SameRowsBut(w.tokens, x.w.tokens, {r.cookie.value}))
  {
    if r.cookie.Some? && r.cookie.value in w.tokens {
      assert !NamesSession(cfg, w, r, w.tokens[r.cookie.value].ref);
    }
  }

  // ---------- what a handler asks for ----------

  function Actions(h: Handler): set<Action> {
    match h
    case Return => {}
    case Call(a, inner, next) => {a} + Actions(inner) + Actions(next)
  }

  /** The login that a record is of: for that account, with its password. */
  predicate AsksFor(cfg: Config, a: Action, e: Audit)
    requires e.LoggedIn?
  {
    && a.Login? && a.passwordOk && a.acct == e.acct && a.tok == e.tok
    && (a.rememberMe ==> cfg.allowRememberMe)
    && e.expiry == a.now + Lifetime(a.rememberMe)
  }

  /** acct is in the context, or some login of these puts it there. */
  predicate MayAct(account: Option<AccountId>, actions: set<Action>, acct: AccountId) {
    account == Some(acct) || exists a :: a in actions && a.Login? && a.passwordOk && a.acct == acct
  }

  /** What a record of a handler's calls says was asked for. */
  predicate Justified(cfg: Config, account: Option<AccountId>, accounts: set<AccountId>, actions: set<Action>,
                      e: Audit)
  {
    match e
    case LoggedIn(_, acct, _, _, _) => acct in accounts && exists a :: a in actions && AsksFor(cfg, a, e)
    case Deleted(acct) => MayAct(account, actions, acct) && DeleteAccount(true, false) in actions
    case LoggedOut(_) => Logout(false) in actions
    case FailedLogin(_) => exists a :: a in actions && a.Login? && a.passwordOk && a.acct in accounts
    case Swept(_) => false
    case Called(_) => false
  }

  /** The records added from one world to the next. */
  function Added(w: World, w': World): seq<Audit> {
    if |w.trail| <= |w'.trail| then w'.trail[|w.trail|..] else []
  }

  /** From w to w' a handler may do no more than was asked for: every record is justified,
      and the accounts that are gone are the deleted ones. */
  ghost predicate Adds(cfg: Config, account: Option<AccountId>, actions: set<Action>, w: World, w': World) {
    && w.trail <= w'.trail
    && (forall e :: e in Added(w, w') ==> Justified(cfg, account, w.accounts, actions, e))
    && (forall acct :: acct in w'.accounts <==> acct in w.accounts && Deleted(acct) !in Added(w, w'))
  }

  lemma AddsOne(cfg: Config, account: Option<AccountId>, a: Action, w: World, w': World, e: Audit)
    requires w'.trail == w.trail + [e] && Justified(cfg, account, w.accounts, {a}, e)
    requires w'.accounts == if e.Deleted? then w.accounts - {e.acct} else w.accounts
    ensures Adds(cfg, account, {a}, w, w')
  {
    assert Added(w, w') == [e];
  }

  lemma AddsNone(cfg: Config, account: Option<AccountId>, a: Action, w: World, w': World)
    requires w'.trail == w.trail && w'.accounts == w.accounts
    ensures Adds(cfg, account, {a}, w, w')
  {
    assert Added(w, w') == [];
  }

  lemma LoginAdds(cfg: Config, x: Exchange, a: Action)
    requires !x.stopped && a.Login?
    ensures Adds(cfg, x.account, {a}, x.w, Do(cfg, x, a).w)
  {
    var y := Do(cfg, x, a);
    assert y.w.accounts == x.w.accounts;
    if y.w.trail == x.w.trail {
      AddsNone(cfg, x.account, a, x.w, y.w);
    } else {
      var e := y.w.trail[|x.w.trail|];
      assert e.LoggedIn? ==> AsksFor(cfg, a, e);
      AddsOne(cfg, x.account, a, x.w, y.w, e);
    }
  }

  lemma DoAdds(cfg: Config, x: Exchange, a: Action)
    requires !x.stopped
    ensures Adds(cfg, x.account, {a}, x.w, Do(cfg, x, a).w)
  {
    var y := Do(cfg, x, a);
    if a.Login? {
      LoginAdds(cfg, x, a);
    } else if y.w.trail == x.w.trail {
      AddsNone(cfg, x.account, a, x.w, y.w);
    } else {
      AddsOne(cfg, x.account, a, x.w, y.w, y.w.trail[|x.w.trail|]);
    }
  }

  lemma DoMayAct(cfg: Config, x: Exchange, a: Action)
    requires !x.stopped && Do(cfg, x, a).account.Some?
    ensures MayAct(x.account, {a}, Do(cfg, x, a).account.value)
  {
  }

  lemma AddsMore(cfg: Config, account: Option<AccountId>, actions: set<Action>, account': Option<AccountId>,
                 actions': set<Action>, all: set<Action>, w: World, w': World, w'': World)
    requires Adds(cfg, account, actions, w, w') && Adds(cfg, account', actions', w', w'')
    requires actions <= all && actions' <= all && (account'.Some? ==> MayAct(account, all, account'.value))
    ensures Adds(cfg, account, all, w, w'')
  {
    assert Added(w, w'') == Added(w, w') + Added(w', w'');
    forall e | e in Added(w, w'') ensures Justified(cfg, account, w.accounts, all, e) {
      if e in Added(w, w') {
        assert Justified(cfg, account, w.accounts, actions, e);
      } else {
        assert Justified(cfg, account', w'.accounts, actions', e);
      }
    }
  }

  /** Whatever its calls are and however they are nested, a handler records a login only for
      a call that has the password of an account that exists, a deletion only for a call
      with the password in a context of that account, and a logout only for a call; and the
      accounts after it are those before it but for the deleted ones. */
  lemma {:induction false} RecordsAreAskedFor(cfg: Config, x: Exchange, h: Handler)
    requires !x.stopped
    ensures Adds(cfg, x.account, Actions(h), x.w, Handle(cfg, x, h).w)
    decreases h
  {
    if h.Call? {
      var y := Do(cfg, x, h.a);
      DoAdds(cfg, x, h.a);
      if y.account.Some? { DoMayAct(cfg, x, h.a); }
      var z := if y.stopped then y else Handle(cfg, y, h.inner);
      if !y.stopped {
        RecordsAreAskedFor(cfg, y, h.inner);
        AddsMore(cfg, x.account, {h.a}, y.account, Actions(h.inner), {h.a} + Actions(h.inner), x.w, y.w, z.w);
      } else {
        AddsMore(cfg, x.account, {h.a}, x.account, {}, {h.a} + Actions(h.inner), x.w, y.w, y.w);
      }
      var x2 := z.(account := x.account, stopped := false);
      RecordsAreAskedFor(cfg, x2, h.next);
      AddsMore(cfg, x.account, {h.a} + Actions(h.inner), x.account, Actions(h.next), Actions(h), x.w, z.w,
               Handle(cfg, x2, h.next).w);
    }
  }

  // ---------- requests and runs ----------

  /** A record of a request: what its handler asked for, or the sweep of an account that
      does not exist. */
  predicate JustifiedBy(cfg: Config, account: Option<AccountId>, accounts: set<AccountId>, r: Request, e: Audit) {
    (e.Swept? && e.acct !in accounts) || Justified(cfg, account, accounts, Actions(r.handler), e)
  }

  lemma LoadAdds(cfg: Config, w: World, r: Request)
    ensures var w' := Load(cfg, w, r).w;
            w'.accounts == w.accounts && w.trail <= w'.trail
            && forall e :: e in Added(w, w') ==> e.Swept? && e.acct !in w.accounts
  {
  }

  lemma ServeAdds(cfg: Config, w: World, r: Request)
    ensures var w' := Serve(cfg, w, r).w;
            && w.trail <= w'.trail
            && (forall e :: e in Added(w, w') ==> JustifiedBy(cfg, Load(cfg, w, r).account, w.accounts, r, e))
            && (forall acct :: acct in w'.accounts <==> acct in w.accounts && Deleted(acct) !in Added(w, w'))
  {
    var x := Load(cfg, w, r);
    LoadAdds(cfg, w, r);
    if !x.stopped {
      RecordsAreAskedFor(cfg, x, r.handler);
      var z, y := Handled(cfg, w, r).w, Serve(cfg, w, r).w;
      assert y.trail == z.trail && y.accounts == z.accounts;
      assert Added(w, y) == Added(w, x.w) + Added(x.w, z);
    }
  }

  /** Event k is a request that the record e of a run comes from. */
  ghost predicate RequestedAt(cfg: Config, events: seq<Event>, k: nat, e: Audit) {
    && k < |events| && events[k].Arrive?
    && var w, r := Run(cfg, events[..k]), events[k].r;
       JustifiedBy(cfg, Load(cfg, w, r).account, w.accounts, r, e)
  }

  /** Every record of a run, other than those of calls by other code, is of a request that
      asked for it. */
  lemma {:induction false} RunIsAskedFor(cfg: Config, events: seq<Event>, e: Audit)
    requires e in Run(cfg, events).trail && !e.Called?
    ensures exists k: nat :: RequestedAt(cfg, events, k, e)
    decreases |events|
  {
    var n := |events| - 1;
    var front := events[..n];
    var w := Run(cfg, front);
    if e in w.trail {
      RunIsAskedFor(cfg, front, e);
      var k: nat :| RequestedAt(cfg, front, k, e);
      assert front[..k] == events[..k];
      assert RequestedAt(cfg, events, k, e);
    } else {
      assert events[n].Arrive?;
      ServeAdds(cfg, w, events[n].r);
      assert e in Added(w, Run(cfg, events));
      assert RequestedAt(cfg, events, n, e);
    }
  }

  /** In event k somebody logged in as acct with the password, for the token t. */
  ghost predicate LogsInAt(cfg: Config, events: seq<Event>, k: nat, a: Action, t: TokenId, acct: AccountId) {
    && k < |events| && events[k].Arrive? && a in Actions(events[k].r.handler)
    && a.Login? && a.passwordOk && a.acct == acct && a.tok == t
    && acct in Run(cfg, events[..k]).accounts && (a.rememberMe ==> cfg.allowRememberMe)
  }

  /** Whoever Session takes for acct has, in some request before and less than 12 hours, or 30
      days, ago, logged in with the password of that account. */
  lemma AuthenticationNeedsPassword(cfg: Config, events: seq<Event>, r: Request, acct: AccountId)
    requires AllAllowed(cfg, events) && Load(cfg, Run(cfg, events), r).account == Some(acct)
    ensures r.cookie.Some?
    ensures exists k: nat, a :: LogsInAt(cfg, events, k, a, r.cookie.value, acct)
                                && r.now < a.now + Lifetime(a.rememberMe)
  {
    AuthenticatedExactly(cfg, events, r, acct);
    var w, t := Run(cfg, events), r.cookie.value;
    var i: nat, expiry: int :| VouchedBy(cfg, w.trail, i, t, acct, expiry) && r.now < expiry;
    var e := w.trail[i];
    RunIsAskedFor(cfg, events, e);
    var k: nat :| RequestedAt(cfg, events, k, e);
    var a :| a in Actions(events[k].r.handler) && AsksFor(cfg, a, e);
    assert LogsInAt(cfg, events, k, a, t, acct);
  }

  /** Event j removes the account: it is dropped, or a request deletes it. */
  ghost predicate RemovedAt(cfg: Config, events: seq<Event>, j: nat, acct: AccountId) {
    j < |events| && (events[j] == DropAccount(acct) || DeletedAt(cfg, events, j, acct))
  }

  ghost predicate DeletedAt(cfg: Config, events: seq<Event>, j: nat, acct: AccountId) {
    && j < |events| && events[j].Arrive?
    && Deleted(acct) in Added(Run(cfg, events[..j]), Run(cfg, events[..j + 1]))
  }

  ghost predicate AddedAt(cfg: Config, events: seq<Event>, k: nat, acct: AccountId) {
    && k < |events| && events[k] == AddAccount(acct)
    && forall j :: k < j < |events| ==> !RemovedAt(cfg, events, j, acct)
  }

  lemma HappenKeepsAccount(cfg: Config, w: World, e: Event, acct: AccountId)
    ensures acct in Happen(cfg, w, e).accounts
        <==> e == AddAccount(acct)
             || (acct in w.accounts && e != DropAccount(acct)
                 && !(e.Arrive? && Deleted(acct) in Added(w, Happen(cfg, w, e))))
  {
    if e.Arrive? { ServeAdds(cfg, w, e.r); }
  }

  lemma PrefixRemoves(cfg: Config, events: seq<Event>, n: nat, j: nat, acct: AccountId)
    requires j < n <= |events|
    ensures RemovedAt(cfg, events[..n], j, acct) <==> RemovedAt(cfg, events, j, acct)
  {
    assert events[..n][..j] == events[..j] && events[..n][..j + 1] == events[..j + 1];
  }

  /** After any run, an account exists exactly when it was added, and since then neither
      dropped nor deleted by a request. */
  lemma {:induction false} AccountsExactly(cfg: Config, events: seq<Event>, acct: AccountId)
    ensures acct in Run(cfg, events).accounts <==> exists k: nat :: AddedAt(cfg, events, k, acct)
    decreases |events|
  {
    if events != [] {
      var n := |events| - 1;
      var front, e := events[..n], events[n];
      AccountsExactly(cfg, front, acct);
      HappenKeepsAccount(cfg, Run(cfg, front), e, acct);
      assert events[..n + 1] == events;
      assert acct in Run(cfg, events).accounts
        <==> e == AddAccount(acct) || (acct in Run(cfg, front).accounts && !RemovedAt(cfg, events, n, acct));
      if e == AddAccount(acct) {
        assert AddedAt(cfg, events, n, acct);
      } else if k: nat :| AddedAt(cfg, front, k, acct) && !RemovedAt(cfg, events, n, acct) {
        forall j | k < j < |events| ensures !RemovedAt(cfg, events, j, acct) {
          if j < n { PrefixRemoves(cfg, events, n, j, acct); }
        }
        assert AddedAt(cfg, events, k, acct);
      } else if k: nat :| AddedAt(cfg, events, k, acct) {
        forall j | k < j < n ensures !RemovedAt(cfg, front, j, acct) {
          PrefixRemoves(cfg, events, n, j, acct);
        }
        assert AddedAt(cfg, front, k, acct);
      }
    }
  }

  /** A request deletes an account only when its handler asks for it, with the password, and
      Session or a login of the handler has put that account in the context. */
  lemma DeletionIsAskedFor(cfg: Config, events: seq<Event>, j: nat, acct: AccountId)
    requires DeletedAt(cfg, events, j, acct)
    ensures var r := events[j].r;
            DeleteAccount(true, false) in Actions(r.handler)
            && MayAct(Load(cfg, Run(cfg, events[..j]), r).account, Actions(r.handler), acct)
  {
    assert events[..j + 1][..j] == events[..j];
    ServeAdds(cfg, Run(cfg, events[..j]), events[j].r);
  }
}
