/** The Tokens manager: its calls, each changing the table as TokenTable.Apply says. */
module TokensManager {
  import opened Wrappers
  import opened TokenTable

  datatype TokenError = Invalid | Rejected(reason: string) | Database

  /** What Verify hands to its validation function and returns. */
  datatype Token = Token(token: TokenId, row: Row)

  type Validator = Token -> bool

  function MustMatchType(typ: string): Validator {
    (t: Token) => t.row.typ == typ
  }

  class Tokens {
    var rows: Table

    constructor ()
      ensures rows == map[]
    {
      rows := map[];
    }

    /** tok is the freshly generated token string. */
    method New(tok: TokenId, args: Args, now: int) returns (r: Result<(TokenId, Json), TokenError>)
      requires Consistent(rows)
      modifies this
      ensures rows == Apply(old(rows), Op.New(tok, args, now)) && Consistent(rows)
      ensures r.Ok? <==> NewSucceeds(old(rows), tok, args, Conflict(old(rows), args))
      ensures r.Ok? ==> r.value == (tok, if args.data.Some? then args.data.value else NULL_JSON) && tok in rows
      ensures var c := Conflict(old(rows), args);
              r.Ok? && tok !in old(rows) ==>
                (rows[tok].data == r.value.1 <==> c.None? || old(rows)[c.value].data == r.value.1)
    {
      ApplyKeepsConsistent(rows, Op.New(tok, args, now));
      if tok !in rows && NewSucceeds(rows, tok, args, Conflict(rows, args)) {
        ReturnedDataIsStored(rows, tok, args, now);
      }
      var idleSecs := None;
      if !args.singleUse && args.idle > 0 {
        idleSecs := Some(Seconds(args.idle));
      }
      var data := NULL_JSON;
      if args.data.Some? { data := args.data.value; }
      if !Storable(tok, args.typ, idleSecs) { return Err(Database); }
      var expiry := now + Seconds(args.absolute) * TIME_UNIT;
      var conflicting := set t | t in rows && ConflictsWith(rows, args, t);
      if conflicting == {} {
        assert forall t :: ConflictsWith(rows, args, t) <==> t in conflicting;
        if tok in rows { return Err(Database); }
        rows := rows[tok := Row(args.typ, args.singleUse, args.ref, expiry, IdleUntil(now, idleSecs), idleSecs, data)];
      } else {
        var c :| c in conflicting;
        ConflictIsUnique(rows, args);
        if tok in rows && tok != c { return Err(Database); }
        var row := rows[c].(expiry := expiry);
        rows := rows - {c};
        rows := rows[tok := row];
      }
      r := Ok((tok, data));
    }

    method Verify(tok: TokenId, now: int, vfn: Option<Validator>) returns (r: Result<Token, TokenError>)
      requires Consistent(rows)
      modifies this
      ensures rows == Apply(old(rows), Op.Verify(tok, now)) && Consistent(rows)
      ensures r.Ok? <==> Accepts(old(rows), tok, now) && (vfn.Some? ==> vfn.value(Token(tok, old(rows)[tok])))
      ensures r.Ok? ==> r.value == Token(tok, old(rows)[tok])
      ensures !Accepts(old(rows), tok, now) ==> r == Err(Invalid)
    {
      ApplyKeepsConsistent(rows, Op.Verify(tok, now));
      if !(tok in rows && rows[tok].expiry > now && (rows[tok].idle.None? || rows[tok].idle.value > now)) {
        return Err(Invalid);
      }
      var loaded := Token(tok, rows[tok]);
      if loaded.row.singleUse {
        this.Delete(tok);
      } else if loaded.row.idle.Some? {
        this.ResetIdle(tok, now);
      }
      if vfn.Some? && !vfn.value(loaded) { return Err(Invalid); }
      r := Ok(loaded);
    }

    method UpdateData(tok: TokenId, data: Json)
      modifies this
      ensures rows == Apply(old(rows), Op.UpdateData(tok, data))
    {
      if tok in rows {
        rows := rows[tok := rows[tok].(data := data)];
      }
    }

    /** tok is the freshly generated token string; it is returned even when no row was
        updated. */
    method Rotate(prev: TokenId, tok: TokenId, args: Args, now: int) returns (r: Result<TokenId, TokenError>)
      modifies this
      ensures rows == Apply(old(rows), Op.Rotate(prev, tok, args, now))
      ensures r.Ok? <==>
                (prev in old(rows) && !old(rows)[prev].singleUse ==> RotateSucceeds(old(rows), prev, tok, args))
      ensures r.Ok? ==> r.value == tok
      ensures r.Ok? && tok !in old(rows) ==> (tok in rows <==> prev in old(rows) && !old(rows)[prev].singleUse)
    {
      var idleSecs := None;
      if args.idle > 0 {
        idleSecs := Some(Seconds(args.idle));
      }
      if prev in rows && !rows[prev].singleUse {
        if !Storable(tok, rows[prev].typ, idleSecs) || (tok in rows && tok != prev) { return Err(Database); }
        var row := rows[prev].(
          ref := args.ref,
          expiry := now + Seconds(args.absolute) * TIME_UNIT,
          idle := IdleUntil(now, idleSecs),
          idleDuration := idleSecs);
        if args.data.Some? { row := row.(data := args.data.value); }
        rows := rows - {prev};
        rows := rows[tok := row];
      }
      r := Ok(tok);
    }

    method Delete(tok: TokenId)
      modifies this
      ensures rows == Apply(old(rows), Op.Delete(tok))
    {
      rows := rows - {tok};
    }

    method DeleteByTypeRef(typ: string, ref: Ref)
      modifies this
      ensures rows == Apply(old(rows), Op.DeleteByTypeRef(typ, ref))
    {
      var doomed := set t | t in rows && rows[t].ref == ref && rows[t].typ == typ;
      rows := rows - doomed;
    }

    method ResetIdle(tok: TokenId, now: int)
      modifies this
      ensures rows == Apply(old(rows), Op.ResetIdle(tok, now))
    {
      if tok in rows && !rows[tok].singleUse {
        rows := rows[tok := rows[tok].(idle := IdleUntil(now, rows[tok].idleDuration))];
      }
    }

    method Cleanup(now: int)
      modifies this
      ensures rows == Apply(old(rows), Op.Cleanup(now))
    {
      var doomed := set t | t in rows && rows[t].expiry < now;
      rows := rows - doomed;
    }
  }
}
