/** A request through the Session middleware, as a function: loading the session, the
    login, logout, delete and replace calls its handler makes, nested in each other or one
    after the other, and the write-back. */
module Sessions {
  import opened Wrappers
  import opened TokenTable

  type AccountId = Ref

  const HOUR := 3600 * SECOND
  const SHORT_SESSION := 12 * HOUR
  const ANONYMOUS_SESSION := SHORT_SESSION
  const IDLE_ANONYMOUS_SESSION := HOUR / 2
  const LONG_SESSION := 30 * 24 * HOUR

  datatype Config = Config(sessionType: string, allowRememberMe: bool)

  function SessionTokenType(configured: string): string {
    if configured != "" then configured else "session"
  }

  /** acctctx's session cell; an empty id is a session that was not saved yet. owner is not
      part of the program: it is the account of the login or the cookie that the session in
      the cell comes from. */
  datatype Cell = Cell(id: TokenId, data: Json, dirty: bool, owner: Ref)

  const ANONYMOUS := Cell("", NULL_JSON, false, NIL_REF)

  /** Which of a login's database calls fail. */
  datatype LoginFaults = LoginFaults(lookup: bool, delete: bool, mint: bool)

  /** A call of the handler. Login and Delete carry the outcome of the password check, and
      Login the account its email finds; tok and now are the token string generated and
      the time, should a token be minted. Each tells which of its database calls fail. */
  datatype Action =
    | ReplaceData(data: Json)
    | Login(acct: AccountId, passwordOk: bool, rememberMe: bool, tok: TokenId, now: int, faults: LoginFaults)
    | Logout(fault: bool)
    | DeleteAccount(passwordOk: bool, fault: bool)

  /** What a handler does: it makes a call, whose own handler is inner, and goes on with next
      when that has returned, in the context it had before. A handler that only ever wraps
      the next one has no next. */
  datatype Handler = Return | Call(a: Action, inner: Handler, next: Handler)

  /** What happened to sessions, in the audit trail: successful logins, prev being the
      session that was in the context and renewed telling that its row became the new one;
      logouts and deletions; logins that failed after the session in the context had been
      deleted; missing accounts whose sessions were swept away; and calls of the tokens
      package by other code. */
  datatype Audit =
    | LoggedIn(tok: TokenId, acct: AccountId, expiry: int, prev: TokenId, renewed: bool)
    | LoggedOut(tok: TokenId)
    | Deleted(acct: AccountId)
    | FailedLogin(prev: TokenId)
    | Swept(acct: AccountId)
    | Called(op: Op)

  /** The database with its audit trail, which is not part of the program. */
  datatype World = World(tokens: Table, accounts: set<AccountId>, trail: seq<Audit>)

  /** A request being handled: account is that of the context at hand, and cell the session
      that all contexts share. cookie is the last one set on the response, "" when it was
      cleared; stopped tells that the latest call sent an error to the error handler. */
  datatype Exchange = Exchange(w: World, account: Option<AccountId>, cell: Cell,
                               cookie: Option<TokenId>, stopped: bool)

  function AuthenticatedArgs(cfg: Config, acct: AccountId, rememberMe: bool, data: Json): Args {
    Args(cfg.sessionType, acct, false, if rememberMe then LONG_SESSION else SHORT_SESSION, 0, Some(data))
  }

  function AnonymousArgs(cfg: Config, data: Json): Args {
    Args(cfg.sessionType, NIL_REF, false, ANONYMOUS_SESSION, IDLE_ANONYMOUS_SESSION, Some(data))
  }

  function Stop(x: Exchange): Exchange {
    x.(stopped := true)
  }

  ghost function Created(tab: Table, tok: TokenId, args: Args): bool {
    NewSucceeds(tab, tok, args, Conflict(tab, args))
  }

  predicate MayLogin(cfg: Config, x: Exchange, a: Action)
    requires a.Login?
  {
    (a.rememberMe ==> cfg.allowRememberMe) && !a.faults.lookup && a.acct in x.w.accounts && a.passwordOk
  }

  /** The context after a login, and its record. */
  function LoggedInAs(cfg: Config, x: Exchange, a: Action, tab: Table, data: Json, renewed: bool): Exchange
    requires a.Login?
  {
    var expiry := Expiry(AuthenticatedArgs(cfg, a.acct, a.rememberMe, data), a.now);
    var e := LoggedIn(a.tok, a.acct, expiry, x.cell.id, renewed);
    x.(w := x.w.(tokens := tab, trail := x.w.trail + [e]),
       account := Some(a.acct), cell := Cell(a.tok, data, false, a.acct), cookie := Some(a.tok))
  }

  /** Login over an authenticated session, or over an anonymous one that was not saved:
      the session in the context goes, a new one is created. When the creation fails the
      old session is already gone. */
  ghost function CreateSession(cfg: Config, x: Exchange, a: Action): Exchange
    requires a.Login?
  {
    var over := x.account.Some? && x.cell.id != "";
    var tab := if over then x.w.tokens - {x.cell.id} else x.w.tokens;
    var data := if x.account.Some? then NULL_JSON else x.cell.data;
    var args := AuthenticatedArgs(cfg, a.acct, a.rememberMe, data);
    if over && a.faults.delete then Stop(x)
    else if Created(tab, a.tok, args) && !a.faults.mint then
      LoggedInAs(cfg, x, a, Apply(tab, New(a.tok, args, a.now)), data, false)
    else if over then Stop(x.(w := x.w.(tokens := tab, trail := x.w.trail + [FailedLogin(x.cell.id)])))
    else Stop(x)
  }

  /** Login over a saved session in an anonymous context: its row, if it is still there,
      becomes the authenticated session. */
  ghost function RotateSession(cfg: Config, x: Exchange, a: Action): Exchange
    requires a.Login?
  {
    var tab, prev := x.w.tokens, x.cell.id;
    var args := AuthenticatedArgs(cfg, a.acct, a.rememberMe, x.cell.data);
    if a.faults.mint || (prev in tab && !tab[prev].singleUse && !RotateSucceeds(tab, prev, a.tok, args)) then Stop(x)
    else LoggedInAs(cfg, x, a, Apply(tab, Rotate(prev, a.tok, args, a.now)), x.cell.data, true)
  }

  ghost function AfterLogin(cfg: Config, x: Exchange, a: Action): Exchange
    requires a.Login?
  {
    if !MayLogin(cfg, x, a) then Stop(x)
    else if x.account.Some? || x.cell.id == "" then CreateSession(cfg, x, a)
    else RotateSession(cfg, x, a)
  }

  /** A login that fails after its checks costs an authenticated session its row, unless it
      was the deletion of that row that failed. */
  lemma FailedLoginLosesSession(cfg: Config, x: Exchange, a: Action)
    requires a.Login? && MayLogin(cfg, x, a) && !x.stopped && AfterLogin(cfg, x, a).stopped
    requires x.account.Some? && x.cell.id in x.w.tokens && x.cell.id != ""
    ensures x.cell.id in AfterLogin(cfg, x, a).w.tokens <==> a.faults.delete
  {
  }

  function AfterLogout(x: Exchange, fault: bool): Exchange {
    if x.cell.id == "" || x.account.None? || fault then Stop(x)
    else x.(w := x.w.(tokens := x.w.tokens - {x.cell.id}, trail := x.w.trail + [LoggedOut(x.cell.id)]),
            account := None, cell := ANONYMOUS, cookie := Some(""))
  }

  /** The two deletions are one transaction. */
  ghost function AfterDelete(cfg: Config, x: Exchange, passwordOk: bool, fault: bool): Exchange {
    if x.account.None? || !passwordOk || fault then Stop(x)
    else
      var acct := x.account.value;
      x.(w := World(Apply(x.w.tokens, DeleteByTypeRef(cfg.sessionType, acct)), x.w.accounts - {acct},
                    x.w.trail + [Deleted(acct)]),
         cell := ANONYMOUS, cookie := Some(""))
  }

  ghost function Do(cfg: Config, x: Exchange, a: Action): Exchange {
    match a
    case ReplaceData(data) => x.(cell := x.cell.(data := data, dirty := true))
    case Login(_, _, _, _, _, _) => AfterLogin(cfg, x, a)
    case Logout(fault) => AfterLogout(x, fault)
    case DeleteAccount(passwordOk, fault) => AfterDelete(cfg, x, passwordOk, fault)
  }

  /** A call that failed does not call its inner handler, and the handler that made it goes
      on all the same. */
  ghost function Handle(cfg: Config, x: Exchange, h: Handler): Exchange
    decreases h
  {
    match h
    case Return => x
    case Call(a, inner, next) =>
      var y := Do(cfg, x, a);
      var z := if y.stopped then y else Handle(cfg, y, inner);
      Handle(cfg, z.(account := x.account, stopped := false), next)
  }

  // ---------- the middleware ----------

  /** Which of Session's own database calls fail: verifying the cookie, finding the account,
      deleting the sessions of a missing one, saving the session. */
  datatype SessionFaults = SessionFaults(verify: bool, lookup: bool, sweep: bool, save: bool)

  datatype Request = Request(cookie: Option<TokenId>, now: int, handler: Handler,
                             anonymousTok: TokenId, writeBack: int, faults: SessionFaults)

  /** What the Session middleware takes for a valid session cookie. */
  predicate IsSession(cfg: Config, tab: Table, t: TokenId, now: int) {
    Accepts(tab, t, now) && tab[t].typ == cfg.sessionType
  }

  /** When it stops here the handler is not called. */
  ghost function Load(cfg: Config, w: World, r: Request): Exchange {
    var anew := Exchange(w, None, ANONYMOUS, None, false);
    match r.cookie
    case None => anew
    case Some(t) =>
      if r.faults.verify then Stop(anew)
      else
        var x := anew.(w := w.(tokens := Apply(w.tokens, Verify(t, r.now))));
        if !IsSession(cfg, w.tokens, t, r.now) then x
        else
          var row := w.tokens[t];
          if row.ref == NIL_REF then x.(cell := Cell(t, row.data, false, NIL_REF))
          else if r.faults.lookup then Stop(x)
          else if row.ref in w.accounts then 
            x.(account := Some(row.ref), cell := Cell(t, row.data, false, row.ref))
          else if r.faults.sweep then Stop(x)
          else
            x.(w := x.w.(tokens := Apply(x.w.tokens, DeleteByTypeRef(cfg.sessionType, row.ref)),
                         trail := x.w.trail + [Swept(row.ref)]))
  }

  ghost function WriteBack(cfg: Config, x: Exchange, r: Request): Exchange {
    if !x.cell.dirty then x
    else if r.faults.save then Stop(x)
    else if x.cell.id != "" then
      x.(w := x.w.(tokens := Apply(x.w.tokens, UpdateData(x.cell.id, x.cell.data))))
    else
      var args := AnonymousArgs(cfg, x.cell.data);
      if Created(x.w.tokens, r.anonymousTok, args) then
        x.(w := x.w.(tokens := Apply(x.w.tokens, New(r.anonymousTok, args, r.writeBack))),
           cookie := Some(r.anonymousTok))
      else Stop(x)
  }

  /** The request when its handler returns, before the write-back. */
  ghost function Handled(cfg: Config, w: World, r: Request): Exchange {
    Handle(cfg, Load(cfg, w, r), r.handler)
  }

  ghost function Serve(cfg: Config, w: World, r: Request): Exchange {
    if Load(cfg, w, r).stopped then Load(cfg, w, r) else WriteBack(cfg, Handled(cfg, w, r), r)
  }
}
