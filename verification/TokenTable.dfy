/** The "tokens_tokens" table and the effect of each statement of the tokens package on
    it, each call being one step at the time now. */
module TokenTable {
  import opened Wrappers

  type TokenId = string
  type Ref = nat          // a UUID; uuid.Nil is 0
  type Json = s: string | s != "" witness "null"    // a marshaled document

  const NIL_REF: Ref := 0
  const NULL_JSON: Json := "null"
  const SECOND := 1_000_000_000      // time.Duration counts nanoseconds
  const TIME_UNIT := 1_000_000       // timestamps count microseconds, per second
  const MAX_INTEGER := 0x7FFF_FFFF   // of an INTEGER column

  /** int64(d / time.Second): Go division truncates toward zero. */
  function Seconds(d: int): int {
    if d >= 0 then d / SECOND else -(-d / SECOND)
  }

  datatype Args = Args(typ: string, ref: Ref, singleUse: bool, absolute: int, idle: int, data: Option<Json>)

  datatype Row = Row(typ: string, singleUse: bool, ref: Ref, expiry: int,
                     idle: Option<int>, idleDuration: Option<int>, data: Json)

  type Table = map<TokenId, Row>

  function Expiry(args: Args, now: int): int {
    now + Seconds(args.absolute) * TIME_UNIT
  }

  /** The idle seconds of New; Rotate does not look at singleUse. */
  function IdleSeconds(args: Args, singleUse: bool): Option<int> {
    if !singleUse && args.idle > 0 then Some(Seconds(args.idle)) else None
  }

  function IdleUntil(now: int, seconds: Option<int>): Option<int> {
    match seconds case None => None case Some(s) => Some(now + s * TIME_UNIT)
  }

  /** The CHECK constraints and the range of idle_duration. */
  predicate Storable(tok: TokenId, typ: string, idle: Option<int>) {
    10 <= |tok| <= 100 && 0 < |typ| <= 100 && (idle.Some? ==> idle.value <= MAX_INTEGER)
  }

  predicate SamePair(r: Row, typ: string, ref: Ref) {
    r.singleUse && r.typ == typ && r.ref == ref
  }

  /** The WHERE clause of Verify's query. */
  predicate InForce(r: Row, now: int) {
    r.expiry > now && (r.idle.None? || r.idle.value > now)
  }

  predicate Accepts(tab: Table, tok: TokenId, now: int) {
    tok in tab && InForce(tab[tok], now)
  }

  /** The calls of the package. */
  datatype Op =
    | New(tok: TokenId, args: Args, now: int)
    | Verify(tok: TokenId, now: int)
    | Rotate(prev: TokenId, tok: TokenId, args: Args, now: int)
    | ResetIdle(tok: TokenId, now: int)
    | UpdateData(tok: TokenId, data: Json)
    | Delete(tok: TokenId)
    | DeleteByTypeRef(typ: string, ref: Ref)
    | Cleanup(now: int)

  /** The token an operation would put in circulation. */
  function Minted(op: Op): Option<TokenId> {
    match op
    case New(tok, _, _) => Some(tok)
    case Rotate(_, tok, _, _) => Some(tok)
    case _ => None
  }

  function NewRow(args: Args, now: int): Row {
    var idle := IdleSeconds(args, args.singleUse);
    Row(args.typ, args.singleUse, args.ref, Expiry(args, now), IdleUntil(now, idle), idle,
        if args.data.Some? then args.data.value else NULL_JSON)
  }

  function RotatedRow(r: Row, args: Args, now: int): Row {
    var idle := IdleSeconds(args, false);
    Row(r.typ, r.singleUse, args.ref, Expiry(args, now), IdleUntil(now, idle), idle,
        if args.data.Some? then args.data.value else r.data)
  }

  /** The row that New's insert conflicts with. */
  predicate ConflictsWith(tab: Table, args: Args, c: TokenId) {
    args.singleUse && c in tab && SamePair(tab[c], args.typ, args.ref)
  }

  /** New's statement, the conflicting row being c if there is one. A violated constraint
      leaves the table alone; a conflict replaces token and expiry only. */
  predicate NewSucceeds(tab: Table, tok: TokenId, args: Args, c: Option<TokenId>) {
    Storable(tok, args.typ, IdleSeconds(args, args.singleUse)) && (tok in tab ==> c == Some(tok))
  }

  function AfterNew(tab: Table, tok: TokenId, args: Args, now: int, c: Option<TokenId>): Table
    requires c.Some? ==> c.value in tab
  {
    if !NewSucceeds(tab, tok, args, c) then tab
    else match c
         case None => tab[tok := NewRow(args, now)]
         case Some(prev) => (tab - {prev})[tok := tab[prev].(expiry := Expiry(args, now))]
  }

  ghost function Conflict(tab: Table, args: Args): (c: Option<TokenId>)
    ensures c.Some? ==> ConflictsWith(tab, args, c.value)
    ensures c.None? ==> forall t :: !ConflictsWith(tab, args, t)
  {
    if t :| ConflictsWith(tab, args, t) then Some(t) else None
  }

  predicate RotateSucceeds(tab: Table, prev: TokenId, tok: TokenId, args: Args) {
    && prev in tab && !tab[prev].singleUse
    && Storable(tok, tab[prev].typ, IdleSeconds(args, false))
    && (tok in tab ==> tok == prev)
  }

  function AfterResetIdle(tab: Table, tok: TokenId, now: int): Table {
    if tok in tab && !tab[tok].singleUse
    then tab[tok := tab[tok].(idle := IdleUntil(now, tab[tok].idleDuration))] else tab
  }

  ghost function Apply(tab: Table, op: Op): Table {
    match op
    case New(tok, args, now) => AfterNew(tab, tok, args, now, Conflict(tab, args))
    case Verify(tok, now) =>
      if !Accepts(tab, tok, now) then tab
      else if tab[tok].singleUse then tab - {tok}
      else if tab[tok].idle.Some? then AfterResetIdle(tab, tok, now)
      else tab
    case Rotate(prev, tok, args, now) =>
      if RotateSucceeds(tab, prev, tok, args) then (tab - {prev})[tok := RotatedRow(tab[prev], args, now)] else tab
    case ResetIdle(tok, now) => AfterResetIdle(tab, tok, now)
    case UpdateData(tok, data) => if tok in tab then tab[tok := tab[tok].(data := data)] else tab
    case Delete(tok) => tab - {tok}
    case DeleteByTypeRef(typ, ref) => map t | t in tab && !(tab[t].ref == ref && tab[t].typ == typ) :: tab[t]
    case Cleanup(now) => map t | t in tab && !(tab[t].expiry < now) :: tab[t]
  }

  // ---------- what every operation keeps ----------

  ghost predicate Consistent(tab: Table) {
    && (forall t, u :: t in tab && u in tab && tab[t].singleUse && SamePair(tab[u], tab[t].typ, tab[t].ref) ==> t == u)
    && (forall t :: t in tab && tab[t].singleUse ==> tab[t].idle.None?)
    && (forall t :: t in tab ==> (tab[t].idle.None? <==> tab[t].idleDuration.None?))
  }

  lemma ConflictIsUnique(tab: Table, args: Args)
    requires Consistent(tab) && args.singleUse
    ensures forall u :: u in tab && SamePair(tab[u], args.typ, args.ref) ==> Conflict(tab, args) == Some(u)
  {
    forall u | u in tab && SamePair(tab[u], args.typ, args.ref) ensures Conflict(tab, args) == Some(u) {
      assert ConflictsWith(tab, args, u);
      var c := Conflict(tab, args).value;
      assert SamePair(tab[c], tab[u].typ, tab[u].ref);
    }
  }

  lemma NewKeepsConsistent(tab: Table, tok: TokenId, args: Args, now: int)
    requires Consistent(tab)
    ensures Consistent(Apply(tab, New(tok, args, now)))
  {
    if args.singleUse { ConflictIsUnique(tab, args); }
  }

  /** At most one single-use row per (type, ref_id), no idle on single-use rows, and idle
      null exactly when idle_duration is. */
  lemma ApplyKeepsConsistent(tab: Table, op: Op)
    requires Consistent(tab)
    ensures Consistent(Apply(tab, op))
  {
    if op.New? { NewKeepsConsistent(tab, op.tok, op.args, op.now); }
  }

  /** The row an accepted New leaves for its token: for a single-use token that replaces
      another the stored data is the old one's, not what New returns. */
  lemma NewStores(tab: Table, tok: TokenId, args: Args, now: int)
    requires Consistent(tab) && tok !in tab && NewSucceeds(tab, tok, args, Conflict(tab, args))
    ensures var row := Apply(tab, New(tok, args, now))[tok];
            row.(data := NULL_JSON) == NewRow(args, now).(data := NULL_JSON)
            && row.data == match Conflict(tab, args) case None => NewRow(args, now).data case Some(c) => tab[c].data
  {
    var c := Conflict(tab, args);
    if c.Some? { assert tab[c.value].idle.None? && tab[c.value].idleDuration.None?; }
  }

  /** So what New returns as data is what it stored exactly when nothing was replaced, or
      the replaced row happened to hold that data. */
  lemma ReturnedDataIsStored(tab: Table, tok: TokenId, args: Args, now: int)
    requires Consistent(tab) && tok !in tab && NewSucceeds(tab, tok, args, Conflict(tab, args))
    ensures tok in Apply(tab, New(tok, args, now))
    ensures Apply(tab, New(tok, args, now))[tok].data == NewRow(args, now).data
        <==> Conflict(tab, args).None? || tab[Conflict(tab, args).value].data == NewRow(args, now).data
  {
    NewStores(tab, tok, args, now);
  }

  /** Two single-use tokens for one (type, ref_id): the second keeps the first one's data. */
  lemma StaleData(first: Json, second: Json)
    ensures var args := Args("reset", 1, true, SECOND, 0, Some(first));
            var tab := Apply(Apply(map[], New("0123456789", args, 0)),
                             New("9876543210", args.(data := Some(second)), 1));
            tab.Keys == {"9876543210"} && tab["9876543210"].data == first
  {
    var tok, next, args := "0123456789", "9876543210", Args("reset", 1, true, SECOND, 0, Some(first));
    assert Conflict(map[], args).None?;
    var t1 := Apply(map[], New(tok, args, 0));
    assert t1 == map[tok := NewRow(args, 0)];
    assert ConflictsWith(t1, args.(data := Some(second)), tok);
    assert Conflict(t1, args.(data := Some(second))) == Some(tok);
  }

  /** The fresh token string that Rotate returns names a row exactly when it updated one. */
  lemma RotatedIsStored(tab: Table, prev: TokenId, tok: TokenId, args: Args, now: int)
    requires tok !in tab
    ensures tok in Apply(tab, Rotate(prev, tok, args, now)) <==> RotateSucceeds(tab, prev, tok, args)
    ensures !RotateSucceeds(tab, prev, tok, args) ==> Apply(tab, Rotate(prev, tok, args, now)) == tab
  {
  }

  /** Rotating a single-use token updates none: the string returned is not a token. */
  lemma RotateOfSingleUse(data: Json, now: int)
    ensures var args := Args("reset", 1, true, SECOND, 0, Some(data));
            var tab := Apply(map[], New("0123456789", args, 0));
            Apply(tab, Rotate("0123456789", "9876543210", args, now)) == tab && "9876543210" !in tab
  {
    assert Conflict(map[], Args("reset", 1, true, SECOND, 0, Some(data))).None?;
  }
}
