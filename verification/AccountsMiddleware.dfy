/** The acctmw middleware and acctctx's session cell, step by step. */
module AccountsMiddleware {
  import opened Wrappers
  import opened TokenTable
  import opened TokensManager
  import opened Sessions

  /** The session that acctctx stores in the context, shared by everything that holds it. */
  class SessionCell {
    var id: TokenId
    var data: Json
    var dirty: bool
    ghost var owner: Ref

    ghost function Value(): Cell reads this {
      Cell(id, data, dirty, owner)
    }

    // WithSession
    constructor (id: TokenId, data: Option<Json>, ghost owner: Ref)
      ensures Value() == Cell(id, if data.Some? then data.value else NULL_JSON, false, owner)
    {
      this.owner := owner;
      this.id := id;
      this.data := if data.Some? then data.value else NULL_JSON;
      this.dirty := false;
    }

    method ResetSession(id: TokenId, data: Option<Json>, ghost owner: Ref)
      modifies this
      ensures Value() == Cell(id, if data.Some? then data.value else NULL_JSON, false, owner)
    {
      this.owner := owner;
      this.id := id;
      this.data := if data.Some? then data.value else NULL_JSON;
      this.dirty := false;
    }

    method ReplaceSessionData(data: Json)
      modifies this
      ensures Value() == old(Value()).(data := data, dirty := true)
    {
      this.data := data;
      this.dirty := true;
    }
  }

  class Response {
    var cookie: Option<TokenId>
    var maxAge: int

    constructor ()
      ensures cookie == None
    {
      cookie, maxAge := None, 0;
    }

    method SetCookie(value: TokenId, maxAge: int)
      modifies this
      ensures cookie == Some(value) && this.maxAge == maxAge
    {
      cookie, this.maxAge := Some(value), maxAge;
    }
  }

  datatype Context = Context(account: Option<AccountId>, cell: SessionCell)

  method AuthenticatedSessionDurations(rememberMe: bool) returns (expiry: int, maxAge: int)
    ensures expiry == (if rememberMe then LONG_SESSION else SHORT_SESSION)
    ensures expiry == if rememberMe then 2_592_000 * 1_000_000_000 else 43_200 * 1_000_000_000
    ensures maxAge == if rememberMe then 2_592_000 else 0
  {
    expiry, maxAge := SHORT_SESSION, 0;
    if rememberMe {
      expiry := LONG_SESSION;
      maxAge := expiry / SECOND;
    }
  }

  class Accounts {
    const cfg: Config
    const tokens: Tokens
    var accounts: set<AccountId>
    ghost var trail: seq<Audit>

    ghost predicate Valid() reads this, tokens {
      Consistent(tokens.rows)
    }

    ghost function State(): World reads this, tokens {
      World(tokens.rows, accounts, trail)
    }

    ghost function Now(ctx: Context, resp: Response, stopped: bool): Exchange
      reads this, tokens, ctx.cell, resp
    {
      Exchange(State(), ctx.account, ctx.cell.Value(), resp.cookie, stopped)
    }

    /** The token type defaults to "session". */
    constructor (sessionTokenType: string, allowRememberMe: bool, tokens: Tokens)
      requires Consistent(tokens.rows)
      ensures Valid() && this.tokens == tokens && accounts == {} && trail == []
      ensures cfg.sessionType == (if sessionTokenType == "" then "session" else sessionTokenType)
      ensures cfg.allowRememberMe == allowRememberMe
    {
      this.cfg := Config(SessionTokenType(sessionTokenType), allowRememberMe);
      this.tokens, this.accounts, this.trail := tokens, {}, [];
    }

    /** The token of a login: created, or rotated from that of the saved anonymous session. */
    method MintSession(a: Action, args: Args, oldSessionID: TokenId, createNewSession: bool) returns (ok: bool)
      requires Valid() && a.Login?
      modifies tokens
      ensures Valid()
      ensures var tab := old(tokens.rows);
              if createNewSession then
                (ok <==> Created(tab, a.tok, args) && !a.faults.mint)
                && tokens.rows == if ok then Apply(tab, Op.New(a.tok, args, a.now)) else tab
              else
                (ok <==> !a.faults.mint && (oldSessionID in tab && !tab[oldSessionID].singleUse
                                            ==> RotateSucceeds(tab, oldSessionID, a.tok, args)))
                && tokens.rows == if ok then Apply(tab, Op.Rotate(oldSessionID, a.tok, args, a.now)) else tab
    {
      if a.faults.mint { return false; }
      if createNewSession {
        var r := tokens.New(a.tok, args, a.now);
        return r.Ok?;
      }
      ApplyKeepsConsistent(tokens.rows, Op.Rotate(oldSessionID, a.tok, args, a.now));
      var r := tokens.Rotate(oldSessionID, a.tok, args, a.now);
      return r.Ok?;
    }

    method Login(ctx: Context, resp: Response, a: Action) returns (next: Context, stopped: bool)
      requires Valid() && a.Login?
      modifies this, tokens, ctx.cell, resp
      ensures Valid() && next.cell == ctx.cell
      ensures Now(next, resp, stopped) == AfterLogin(cfg, old(Now(ctx, resp, false)), a)
      ensures !stopped ==> resp.maxAge == if a.rememberMe then 2_592_000 else 0
    {
      if a.rememberMe && !cfg.allowRememberMe { return ctx, true; }
      if a.faults.lookup { return ctx, true; }
      if a.acct !in accounts || !a.passwordOk { return ctx, true; }

      var expiry, maxAge := AuthenticatedSessionDurations(a.rememberMe);
      var oldSessionID := ctx.cell.id;
      var createNewSession, sessionData := false, NULL_JSON;
      if ctx.account.Some? {
        if oldSessionID != "" {
          if a.faults.delete { return ctx, true; }
          ApplyKeepsConsistent(tokens.rows, Op.Delete(oldSessionID));
          tokens.Delete(oldSessionID);
        }
        createNewSession := true;
      } else {
        createNewSession := oldSessionID == "";
        sessionData := ctx.cell.data;
      }

      var args := Args(cfg.sessionType, a.acct, false, expiry, 0, Some(sessionData));
      var ok := MintSession(a, args, oldSessionID, createNewSession);
      if !ok {
        if ctx.account.Some? && oldSessionID != "" { trail := trail + [FailedLogin(oldSessionID)]; }
        return ctx, true;
      }
      trail := trail + [LoggedIn(a.tok, a.acct, Expiry(args, a.now), oldSessionID, !createNewSession)];

      ctx.cell.ResetSession(a.tok, Some(sessionData), a.acct);
      resp.SetCookie(a.tok, maxAge);
      return Context(Some(a.acct), ctx.cell), false;
    }

    method Logout(ctx: Context, resp: Response, fault: bool) returns (next: Context, stopped: bool)
      requires Valid()
      modifies this, tokens, ctx.cell, resp
      ensures Valid() && next.cell == ctx.cell
      ensures Now(next, resp, stopped) == AfterLogout(old(Now(ctx, resp, false)), fault)
      ensures !stopped ==> resp.maxAge == -1
    {
      var ssnID := ctx.cell.id;
      if ssnID == "" || ctx.account.None? { return ctx, true; }
      if fault { return ctx, true; }
      ApplyKeepsConsistent(tokens.rows, Op.Delete(ssnID));
      tokens.Delete(ssnID);
      trail := trail + [LoggedOut(ssnID)];
      ctx.cell.ResetSession("", None, NIL_REF);
      resp.SetCookie("", -1);
      return Context(None, ctx.cell), false;
    }

    /** The account stays in the context. */
    method DeleteAccount(ctx: Context, resp: Response, passwordOk: bool, fault: bool)
      returns (next: Context, stopped: bool)
      requires Valid()
      modifies this, tokens, ctx.cell, resp
      ensures Valid() && next.cell == ctx.cell
      ensures Now(next, resp, stopped) == AfterDelete(cfg, old(Now(ctx, resp, false)), passwordOk, fault)
      ensures !stopped ==> resp.maxAge == -1
    {
      if ctx.account.None? || !passwordOk { return ctx, true; }
      if fault { return ctx, true; }    // rolls back the transaction of both deletions
      var acct := ctx.account.value;
      accounts := accounts - {acct};
      ApplyKeepsConsistent(tokens.rows, Op.DeleteByTypeRef(cfg.sessionType, acct));
      tokens.DeleteByTypeRef(cfg.sessionType, acct);
      trail := trail + [Deleted(acct)];
      resp.SetCookie("", -1);
      ctx.cell.ResetSession("", None, NIL_REF);
      return ctx, false;
    }

    /** A handler: its calls, each with the handler it wraps, in the context it was given. */
    method ServeHTTP(ctx: Context, resp: Response, h: Handler)
      requires Valid()
      modifies this, tokens, ctx.cell, resp
      ensures Valid()
      ensures Now(ctx, resp, false) == Handle(cfg, old(Now(ctx, resp, false)), h)
      decreases h
    {
      if h.Return? { return; }
      var next, stopped := ctx, false;
      match h.a {
        case ReplaceData(data) =>
          ctx.cell.ReplaceSessionData(data);
        case Login(_, _, _, _, _, _) =>
          next, stopped := Login(ctx, resp, h.a);
        case Logout(fault) =>
          next, stopped := Logout(ctx, resp, fault);
        case DeleteAccount(passwordOk, fault) =>
          next, stopped := DeleteAccount(ctx, resp, passwordOk, fault);
      }
      if !stopped {
        ServeHTTP(next, resp, h.inner);
      }
      ServeHTTP(ctx, resp, h.next);
    }

    /** The part of Session before the wrapped handler; when it stops, the context is one
        without a session. */
    method LoadSession(resp: Response, r: Request) returns (ctx: Context, stopped: bool)
      requires Valid()
      modifies this, tokens
      ensures Valid() && fresh(ctx.cell)
      ensures resp.cookie == None ==> Now(ctx, resp, stopped) == Load(cfg, old(State()), r)
    {
      var cell := new SessionCell("", None, NIL_REF);
      ctx, stopped := Context(None, cell), false;
      var tok: Option<Token> := None;
      if r.cookie.Some? {
        if r.faults.verify { return ctx, true; }
        var v := tokens.Verify(r.cookie.value, r.now, Some(MustMatchType(cfg.sessionType)));
        if v.Ok? { tok := Some(v.value); }
      }
      var ssnID, ssnData, acct := "", None, None;
      if tok.None? {
      } else if tok.value.row.ref == NIL_REF {
        ssnID, ssnData := tok.value.token, Some(tok.value.row.data);
      } else {
        if r.faults.lookup { return ctx, true; }
        var ref := tok.value.row.ref;
        if ref !in accounts {
          if r.faults.sweep { return ctx, true; }
          ApplyKeepsConsistent(tokens.rows, Op.DeleteByTypeRef(cfg.sessionType, ref));
          tokens.DeleteByTypeRef(cfg.sessionType, ref);
          trail := trail + [Swept(ref)];
        } else {
          acct := Some(ref);
          ssnID, ssnData := tok.value.token, Some(tok.value.row.data);
        }
      }
      cell := new SessionCell(ssnID, ssnData, if acct.Some? then acct.value else NIL_REF);
      ctx := Context(acct, cell);
    }

    method GenerateNewAnonymousSession(resp: Response, r: Request, data: Json) returns (stop: bool)
      requires Valid()
      modifies tokens, resp
      ensures Valid()
      ensures stop <==> r.faults.save || !Created(old(tokens.rows), r.anonymousTok, AnonymousArgs(cfg, data))
      ensures tokens.rows == if stop then old(tokens.rows)
                             else Apply(old(tokens.rows), Op.New(r.anonymousTok, AnonymousArgs(cfg, data), r.writeBack))
      ensures resp.cookie == if stop then old(resp.cookie) else Some(r.anonymousTok)
      ensures !stop ==> resp.maxAge == 0
    {
      if r.faults.save { return true; }
      var args := Args(cfg.sessionType, NIL_REF, false, ANONYMOUS_SESSION, IDLE_ANONYMOUS_SESSION, Some(data));
      var n := tokens.New(r.anonymousTok, args, r.writeBack);
      if n.Err? { return true; }
      resp.SetCookie(r.anonymousTok, 0);
      stop := false;
    }

    method Session(resp: Response, r: Request) returns (ctx: Context, stopped: bool)
      requires Valid() && resp.cookie == None
      modifies this, tokens, resp
      ensures Valid()
      ensures Now(ctx, resp, stopped) == Serve(cfg, old(State()), r)
    {
      ctx, stopped := LoadSession(resp, r);
      if stopped { return; }
      ServeHTTP(ctx, resp, r.handler);
      if ctx.cell.dirty {
        if ctx.cell.id == "" {
          var stop := GenerateNewAnonymousSession(resp, r, ctx.cell.data);
          if stop { stopped := true; }
        } else {
          if r.faults.save { return ctx, true; }
          ApplyKeepsConsistent(tokens.rows, Op.UpdateData(ctx.cell.id, ctx.cell.data));
          tokens.UpdateData(ctx.cell.id, ctx.cell.data);
        }
      }
    }
  }
}
