/** Write-back coherence: what the client's cookie loads next is what the handler saw. */
module SessionCoherence {
  import opened Wrappers
  import opened TokenTable
  import opened Sessions

  /** The cookie the client holds after the exchange. */
  function ClientCookie(x: Exchange, r: Request): Option<TokenId> {
    if x.cookie.Some? then x.cookie else r.cookie
  }

  /** A cookie that loaded no session: its row cannot become one by the passing of time. */
  predicate Unusable(cfg: Config, tab: Table, t: TokenId, now: int) {
    t in tab ==> tab[t].typ != cfg.sessionType || !Accepts(tab, t, now)
  }

  /** The token strings a handler generates, should it get that far. */
  function Minted(h: Handler): set<TokenId> {
    match h
    case Return => {}
    case Call(a, inner, next) => (if a.Login? then {a.tok} else {}) + Minted(inner) + Minted(next)
  }

  function Taken(taken: set<TokenId>, a: Action): set<TokenId> {
    if a.Login? then taken + {a.tok} else taken
  }

  /** They are new: not empty, not among those taken, nor generated twice. */
  predicate FreshTokens(taken: set<TokenId>, h: Handler)
    decreases h
  {
    match h
    case Return => true
    case Call(a, inner, next) =>
      && (a.Login? ==> a.tok != "" && a.tok !in taken)
      && FreshTokens(Taken(taken, a), inner)
      && FreshTokens(Taken(taken, a) + Minted(inner), next)
  }

  /** Between calls of the handler: the session in the context, its row and the cookie
      belong together. */
  ghost predicate Coherent(cfg: Config, taken: set<TokenId>, r: Request, x: Exchange) {
    var id, tab := x.cell.id, x.w.tokens;
    && (x.cookie.Some? ==> x.cookie.value == id)
    && (x.cookie.None? && id != "" ==> r.cookie == Some(id))
    && (x.cookie.None? && id == "" && r.cookie.Some? ==> Unusable(cfg, tab, r.cookie.value, r.now))
    && (id != "" && id in tab ==> tab[id].typ == cfg.sessionType && !tab[id].singleUse && tab[id].ref == x.cell.owner)
    && (id != "" && id in tab && !x.cell.dirty ==> tab[id].data == x.cell.data)
    && (id == "" ==> x.cell.owner == NIL_REF)
    && tab.Keys <= taken && (id != "" ==> id in taken)
    && "" !in tab
  }

  lemma LoadIsCoherent(cfg: Config, w: World, r: Request)
    requires "" !in w.tokens && !Load(cfg, w, r).stopped
    ensures Coherent(cfg, w.tokens.Keys, r, Load(cfg, w, r))
  {
  }

  lemma CreateIsCoherent(cfg: Config, taken: set<TokenId>, r: Request, x: Exchange, a: Action)
    requires a.Login? && !x.stopped && a.tok != "" && a.tok !in taken && Coherent(cfg, taken, r, x)
    requires x.account.Some? || x.cell.id == ""
    ensures Coherent(cfg, taken + {a.tok}, r, CreateSession(cfg, x, a))
  {
    var y := CreateSession(cfg, x, a);
    if y.stopped {
      assert y.cell == x.cell && y.cookie == x.cookie && y.w.tokens.Keys <= x.w.tokens.Keys;
    } else {
      assert y.cell == Cell(a.tok, y.cell.data, false, a.acct) && y.cookie == Some(a.tok);
    }
  }

  lemma RotateIsCoherent(cfg: Config, taken: set<TokenId>, r: Request, x: Exchange, a: Action)
    requires a.Login? && !x.stopped && a.tok != "" && a.tok !in taken && Coherent(cfg, taken, r, x)
    requires x.account.None? && x.cell.id != ""
    ensures Coherent(cfg, taken + {a.tok}, r, RotateSession(cfg, x, a))
  {
  }

  lemma DoIsCoherent(cfg: Config, taken: set<TokenId>, r: Request, x: Exchange, a: Action)
    requires !x.stopped && Coherent(cfg, taken, r, x) && (a.Login? ==> a.tok != "" && a.tok !in taken)
    ensures Coherent(cfg, Taken(taken, a), r, Do(cfg, x, a))
  {
    if a.Login? && MayLogin(cfg, x, a) {
      if x.account.Some? || x.cell.id == "" { CreateIsCoherent(cfg, taken, r, x, a); }
      else { RotateIsCoherent(cfg, taken, r, x, a); }
    }
  }

  lemma MoreTaken(cfg: Config, taken: set<TokenId>, more: set<TokenId>, r: Request, x: Exchange,
                  account: Option<AccountId>)
    requires Coherent(cfg, taken, r, x) && taken <= more
    ensures Coherent(cfg, more, r, x.(account := account, stopped := false))
  {
  }

  /** Whatever calls a handler makes, nested or one after the other, and whichever of them
      fail. */
  lemma {:induction false} HandleIsCoherent(cfg: Config, taken: set<TokenId>, r: Request, x: Exchange, h: Handler)
    requires !x.stopped && Coherent(cfg, taken, r, x) && FreshTokens(taken, h)
    ensures Coherent(cfg, taken + Minted(h), r, Handle(cfg, x, h)) && !Handle(cfg, x, h).stopped
    decreases h
  {
    match h
    case Return =>
      assert taken + {} == taken;
    case Call(a, inner, next) =>
      var t1 := Taken(taken, a);
      var y := Do(cfg, x, a);
      DoIsCoherent(cfg, taken, r, x, a);
      var z := if y.stopped then y else Handle(cfg, y, inner);
      if !y.stopped { HandleIsCoherent(cfg, t1, r, y, inner); }
      MoreTaken(cfg, if y.stopped then t1 else t1 + Minted(inner), t1 + Minted(inner), r, z, x.account);
      HandleIsCoherent(cfg, t1 + Minted(inner), r, z.(account := x.account, stopped := false), next);
      assert t1 + Minted(inner) + Minted(next) == taken + Minted(h);
  }

  /** Session could load the cookie's session, and could save its data if it had to. */
  ghost predicate LoadsAndSaves(cfg: Config, w: World, r: Request) {
    !Load(cfg, w, r).stopped && (Handled(cfg, w, r).cell.dirty && Handled(cfg, w, r).cell.id != "" ==> !r.faults.save)
  }

  /** After any request, whatever calls its handler made, nested or one after the other, and
      whichever of its database calls failed: if the cookie the client is left with verifies
      at any later time, it loads exactly the session data the context held at the end, for
      the account that the context's session belongs to, or nobody. */
  lemma WriteBackIsCoherent(cfg: Config, w: World, r: Request, later: int)
    requires "" !in w.tokens && r.now <= later && FreshTokens(w.tokens.Keys, r.handler)
    requires LoadsAndSaves(cfg, w, r)
    ensures var x := Serve(cfg, w, r);
            var c := ClientCookie(x, r);
            c.Some? && IsSession(cfg, x.w.tokens, c.value, later) ==>
              x.w.tokens[c.value].data == x.cell.data && x.w.tokens[c.value].ref == x.cell.owner
  {
    LoadIsCoherent(cfg, w, r);
    HandleIsCoherent(cfg, w.tokens.Keys, r, Load(cfg, w, r), r.handler);
    SavedIsCoherent(cfg, w.tokens.Keys + Minted(r.handler), r, Handled(cfg, w, r), later);
  }

  lemma SavedIsCoherent(cfg: Config, taken: set<TokenId>, r: Request, h: Exchange, later: int)
    requires Coherent(cfg, taken, r, h) && r.now <= later && (h.cell.dirty && h.cell.id != "" ==> !r.faults.save)
    ensures var x := WriteBack(cfg, h, r);
            var c := ClientCookie(x, r);
            c.Some? && IsSession(cfg, x.w.tokens, c.value, later) ==>
              x.w.tokens[c.value].data == x.cell.data && x.w.tokens[c.value].ref == x.cell.owner
  {
  }

  // ---------- what is saved ----------

  /** The row of the client's cookie, if it has one. */
  predicate HasRow(x: Exchange, r: Request, row: Row) {
    ClientCookie(x, r).Some? && ClientCookie(x, r).value in x.w.tokens && x.w.tokens[ClientCookie(x, r).value] == row
  }

  /** A session that the handler changed, and that still has its row, is saved in it: the
      row of the client's cookie holds the new data, and is otherwise as it was. */
  lemma ChangesAreSaved(cfg: Config, w: World, r: Request)
    requires "" !in w.tokens && FreshTokens(w.tokens.Keys, r.handler) && !Load(cfg, w, r).stopped
    requires var h := Handled(cfg, w, r); h.cell.dirty && h.cell.id != "" && h.cell.id in h.w.tokens
    ensures var h, x := Handled(cfg, w, r), Serve(cfg, w, r);
            && (x.stopped <==> r.faults.save)
            && (!x.stopped ==> HasRow(x, r, h.w.tokens[h.cell.id].(data := h.cell.data)))
            && (!x.stopped ==> x.w.tokens == h.w.tokens[h.cell.id := h.w.tokens[h.cell.id].(data := h.cell.data)])
  {
    LoadIsCoherent(cfg, w, r);
    HandleIsCoherent(cfg, w.tokens.Keys, r, Load(cfg, w, r), r.handler);
  }

  /** One that was not saved before gets a row and a cookie: an anonymous session for 12
      hours, half an hour of them idle. */
  lemma AnonymousIsSaved(cfg: Config, w: World, r: Request)
    requires "" !in w.tokens && FreshTokens(w.tokens.Keys, r.handler) && !Load(cfg, w, r).stopped
    requires var h := Handled(cfg, w, r); h.cell.dirty && h.cell.id == "" && r.anonymousTok !in h.w.tokens
    requires 10 <= |r.anonymousTok| <= 100 && 0 < |cfg.sessionType| <= 100
    ensures var h, x := Handled(cfg, w, r), Serve(cfg, w, r);
            && (x.stopped <==> r.faults.save)
            && (!x.stopped ==>
                  && ClientCookie(x, r) == Some(r.anonymousTok) && h.w.tokens.Keys == x.w.tokens.Keys - {r.anonymousTok}
                  && HasRow(x, r, Row(cfg.sessionType, false, 0, r.writeBack + 43_200 * 1_000_000,
                                      Some(r.writeBack + 1_800 * 1_000_000), Some(1_800), h.cell.data)))
  {
    HandleIsCoherent(cfg, w.tokens.Keys, r, Load(cfg, w, r), r.handler) by { LoadIsCoherent(cfg, w, r); }
  }

  /** The last call of the handler replaces the session data by data. */
  predicate EndsReplacing(h: Handler, data: Json)
    decreases h
  {
    h.Call? && if h.next.Return? then h.a == ReplaceData(data) && h.inner.Return? else EndsReplacing(h.next, data)
  }

  lemma {:induction false} EndsWithData(cfg: Config, x: Exchange, h: Handler, data: Json)
    requires EndsReplacing(h, data)
    ensures Handle(cfg, x, h).cell.dirty && Handle(cfg, x, h).cell.data == data
    decreases h
  {
    var y := Do(cfg, x, h.a);
    var z := if y.stopped then y else Handle(cfg, y, h.inner);
    if h.next.Call? { EndsWithData(cfg, z.(account := x.account, stopped := false), h.next, data); }
  }

  /** So the data that a handler leaves last is what the client's cookie is good for next,
      if its session has a row, or can have one. */
  lemma ReplacedDataIsSaved(cfg: Config, w: World, r: Request, data: Json)
    requires "" !in w.tokens && FreshTokens(w.tokens.Keys, r.handler) && EndsReplacing(r.handler, data)
    requires !Load(cfg, w, r).stopped && !r.faults.save
    requires var h := Handled(cfg, w, r);
             if h.cell.id != "" then h.cell.id in h.w.tokens
             else r.anonymousTok !in h.w.tokens && 10 <= |r.anonymousTok| <= 100 && 0 < |cfg.sessionType| <= 100
    ensures var x := Serve(cfg, w, r);
            !x.stopped && ClientCookie(x, r).Some? && ClientCookie(x, r).value in x.w.tokens
            && x.w.tokens[ClientCookie(x, r).value].data == data
  {
    EndsWithData(cfg, Load(cfg, w, r), r.handler, data);
    if Handled(cfg, w, r).cell.id != "" { ChangesAreSaved(cfg, w, r); } else { AnonymousIsSaved(cfg, w, r); }
  }

  // ---------- whose session it is ----------

  /** The account of the context at hand is the one its session belongs to. */
  predicate InStep(x: Exchange) {
    x.cell.id != "" ==> x.cell.owner == if x.account.Some? then x.account.value else NIL_REF
  }

  /** It is when Session calls the handler, and a call keeps it so for its inner handler. */
  lemma NestedStaysInStep(cfg: Config, w: World, r: Request, x: Exchange, a: Action)
    ensures InStep(Load(cfg, w, r))
    ensures InStep(x) && !x.stopped && !Do(cfg, x, a).stopped ==> InStep(Do(cfg, x, a))
  {
  }

  /** A handler that goes on after a login that succeeded is out of step with it: it still has
      the account it had before, while the session, and what is written back to it, is that
      of the login. */
  lemma AfterTheCallOutOfStep(cfg: Config, x: Exchange, a: Action)
    requires a.Login? && !x.stopped && !Do(cfg, x, a).stopped
    ensures var z := Handle(cfg, x, Call(a, Return, Return));
            z.account == x.account && z.cell.owner == a.acct
            && (InStep(z) <==> a.tok == "" || a.acct == if x.account.Some? then x.account.value else NIL_REF)
  {
    var y := Do(cfg, x, a);
    assert Handle(cfg, y, Return) == y;
    assert Handle(cfg, x, Call(a, Return, Return)) == y.(account := x.account, stopped := false);
  }

  /** When Session cannot load, no handler runs and no multi-use row is lost or changed but
      for its idle time: the cookie loads later what it would have loaded. */
  lemma FailedLoadKeepsSession(cfg: Config, w: World, r: Request, t: TokenId)
    requires Load(cfg, w, r).stopped
    ensures Serve(cfg, w, r) == Load(cfg, w, r) && Serve(cfg, w, r).cookie == None
    ensures t in w.tokens && !w.tokens[t].singleUse ==>
              t in Serve(cfg, w, r).w.tokens
              && Serve(cfg, w, r).w.tokens[t].(idle := None) == w.tokens[t].(idle := None)
  {
  }

  // ---------- rows left behind ----------

  /** Nothing goes on after a call. */
  predicate IsNested(h: Handler) {
    h.Call? ==> h.next.Return? && IsNested(h.inner)
  }

  /** No row was created but that of the session in the context, which is in step. */
  ghost predicate OnlyOwnRow(before: Table, x: Exchange) {
    InStep(x) && x.w.tokens.Keys <= before.Keys + (if x.cell.id == "" then {} else {x.cell.id})
  }

  lemma DoLeavesOwnRow(cfg: Config, taken: set<TokenId>, r: Request, before: Table, x: Exchange, a: Action)
    requires !x.stopped && Coherent(cfg, taken, r, x) && (a.Login? ==> a.tok != "" && a.tok !in taken)
    requires OnlyOwnRow(before, x)
    ensures OnlyOwnRow(before, Do(cfg, x, a))
  {
  }

  lemma {:induction false} NestedLeavesOwnRow(cfg: Config, taken: set<TokenId>, r: Request, before: Table,
                                              x: Exchange, h: Handler)
    requires !x.stopped && Coherent(cfg, taken, r, x) && FreshTokens(taken, h) && IsNested(h)
    requires OnlyOwnRow(before, x)
    ensures Handle(cfg, x, h).w.tokens.Keys
         <= before.Keys + (if Handle(cfg, x, h).cell.id == "" then {} else {Handle(cfg, x, h).cell.id})
    decreases h
  {
    if h.Call? {
      var y := Do(cfg, x, h.a);
      DoLeavesOwnRow(cfg, taken, r, before, x, h.a);
      if !y.stopped {
        DoIsCoherent(cfg, taken, r, x, h.a);
        NestedLeavesOwnRow(cfg, Taken(taken, h.a), r, before, y, h.inner);
      }
    }
  }

  /** A request with nested calls that ends with a clean anonymous session leaves no row
      behind that was not there before. */
  lemma CleanAnonymousLeavesNoRow(cfg: Config, w: World, r: Request)
    requires "" !in w.tokens && FreshTokens(w.tokens.Keys, r.handler) && IsNested(r.handler)
    requires var h := Handled(cfg, w, r); !Load(cfg, w, r).stopped ==> h.cell.id == "" && !h.cell.dirty
    ensures Serve(cfg, w, r).w.tokens.Keys <= w.tokens.Keys
  {
    if !Load(cfg, w, r).stopped {
      LoadIsCoherent(cfg, w, r);
      NestedLeavesOwnRow(cfg, w.tokens.Keys, r, w.tokens, Load(cfg, w, r), r.handler);
    }
  }

  /** Calls one after the other can leave one: a handler that lets somebody else log in over
      its account and then deletes that account clears the new cookie, but not its row. */
  lemma OrphanedRow(cfg: Config, x: Exchange, a: Action)
    requires a.Login? && !x.stopped && !Do(cfg, x, a).stopped && x.account.Some? && a.acct != x.account.value
    ensures var z := Handle(cfg, x, Call(a, Return, Call(DeleteAccount(true, false), Return, Return)));
            z.cell == ANONYMOUS && z.cookie == Some("") && a.tok in z.w.tokens
  {
    var delete := Call(DeleteAccount(true, false), Return, Return);
    var y := Do(cfg, x, a);
    var y2 := y.(account := x.account, stopped := false);
    var z := Do(cfg, y2, DeleteAccount(true, false));
    assert Handle(cfg, y, Return) == y && Handle(cfg, z, Return) == z;
    assert Handle(cfg, y2, delete) == z.(account := x.account, stopped := false);
    assert Handle(cfg, x, Call(a, Return, delete)) == Handle(cfg, y2, delete);
  }
}
