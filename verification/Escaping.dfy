/** pgdb.QuoteEsc and pgdb.LikeEsc, against independent readers of what they produce:
    a lexer of standard-conforming SQL string literals, and LIKE with backslash as
    its escape character. */
module Escaping {
  import opened Wrappers

  // ---------- QuoteEsc ----------

  function DoubleQuotes(s: string): string {
    if s == [] then [] else (if s[0] == '\'' then "''" else [s[0]]) + DoubleQuotes(s[1..])
  }

  function QuoteEsc(s: string): string {
    "'" + DoubleQuotes(s) + "'"
  }

  predicate StartsWithQuote(s: string) {
    s != [] && s[0] == '\''
  }

  /** Reads a literal after its opening quote: a doubled quote stands for one quote, a
      single one closes the literal. Yields the denoted text and what follows. */
  function LexBody(t: string): Option<(string, string)> {
    if t == [] then None
    else if t[0] != '\'' then
      match LexBody(t[1..]) {
        case None => None
        case Some((s, rest)) => Some(([t[0]] + s, rest))
      }
    else if StartsWithQuote(t[1..]) then
      match LexBody(t[2..]) {
        case None => None
        case Some((s, rest)) => Some((['\''] + s, rest))
      }
    else Some(([], t[1..]))
  }

  function LexLiteral(t: string): Option<(string, string)> {
    if StartsWithQuote(t) then LexBody(t[1..]) else None
  }

  lemma DoubleQuotesCons(c: char, s: string)
    ensures DoubleQuotes([c] + s) == (if c == '\'' then "''" else [c]) + DoubleQuotes(s)
  {
    assert ([c] + s)[1..] == s;
  }

  lemma LexOne(unit: string, tail: string)
    requires unit == "''" || (|unit| == 1 && unit[0] != '\'')
    ensures LexBody(unit + tail)
         == match LexBody(tail) case None => None case Some((s, rest)) => Some(([unit[0]] + s, rest))
  {
    assert (unit + tail)[|unit|..] == tail;
    if |unit| == 2 { assert (unit + tail)[1] == '\''; }
  }

  lemma {:induction false} LexBodyOfQuoted(s: string, rest: string)
    requires !StartsWithQuote(rest)
    ensures LexBody(DoubleQuotes(s) + "'" + rest) == Some((s, rest))
  {
    var t := DoubleQuotes(s) + "'" + rest;
    if s == [] {
      assert t[1..] == rest;
    } else {
      LexBodyOfQuoted(s[1..], rest);
      var tail := DoubleQuotes(s[1..]) + "'" + rest;
      assert s == [s[0]] + s[1..];
      if s[0] == '\'' {
        assert t == "''" + tail;
        LexOne("''", tail);
      } else {
        assert t == [s[0]] + tail;
        LexOne([s[0]], tail);
      }
    }
  }

  lemma {:induction false} LexBodyIsQuoted(t: string)
    ensures match LexBody(t)
            case None => true
            case Some((s, rest)) => t == DoubleQuotes(s) + "'" + rest && !StartsWithQuote(rest)
  {
    if t == [] {
    } else if t[0] != '\'' {
      LexBodyIsQuoted(t[1..]);
      if LexBody(t[1..]).Some? { DoubleQuotesCons(t[0], LexBody(t[1..]).value.0); }
      assert t == [t[0]] + t[1..];
    } else if StartsWithQuote(t[1..]) {
      LexBodyIsQuoted(t[2..]);
      if LexBody(t[2..]).Some? { DoubleQuotesCons('\'', LexBody(t[2..]).value.0); }
      assert t == "''" + t[2..];
    } else {
      assert t == "'" + t[1..];
    }
  }

  /** A text lexes as a literal denoting s followed by rest exactly when it is
      QuoteEsc(s) + rest and rest does not continue the literal: the round trip, its
      exact side condition, and the fact that every literal is the escape of what it
      denotes. */
  lemma QuoteEscExact(t: string, s: string, rest: string)
    ensures LexLiteral(t) == Some((s, rest)) <==> t == QuoteEsc(s) + rest && !StartsWithQuote(rest)
  {
    if StartsWithQuote(t) {
      LexBodyIsQuoted(t[1..]);
      assert t == "'" + t[1..];
    }
    if t == QuoteEsc(s) + rest && !StartsWithQuote(rest) {
      assert t[1..] == DoubleQuotes(s) + "'" + rest;
      LexBodyOfQuoted(s, rest);
    }
  }

  lemma QuoteEscInjective(s1: string, s2: string)
    requires QuoteEsc(s1) == QuoteEsc(s2)
    ensures s1 == s2
  {
    QuoteEscExact(QuoteEsc(s1) + "", s1, "");
    QuoteEscExact(QuoteEsc(s1) + "", s2, "");
  }

  // ---------- LikeEsc ----------

  predicate IsLikeSpecial(c: char) {
    c == '\\' || c == '%' || c == '_'
  }

  function EscapeChar(c: char): string {
    if IsLikeSpecial(c) then ['\\', c] else [c]
  }

  function LikeEsc(s: string): string {
    if s == [] then [] else EscapeChar(s[0]) + LikeEsc(s[1..])
  }

  datatype PatternItem = Exactly(c: char) | AnyOne | AnyRun

  /** Reads a LIKE pattern; None is the error of a pattern that ends in its escape
      character. */
  function ParsePattern(p: string): Option<seq<PatternItem>> {
    if p == [] then Some([])
    else if p[0] == '\\' then
      if |p| == 1 then None
      else match ParsePattern(p[2..])
           case None => None
           case Some(items) => Some([Exactly(p[1])] + items)
    else
      match ParsePattern(p[1..])
      case None => None
      case Some(items) =>
        Some([if p[0] == '%' then AnyRun else if p[0] == '_' then AnyOne else Exactly(p[0])] + items)
  }

  predicate Matches(t: string, items: seq<PatternItem>)
    decreases |items|, |t|
  {
    if items == [] then t == []
    else match items[0]
         case Exactly(c) => t != [] && t[0] == c && Matches(t[1..], items[1..])
         case AnyOne => t != [] && Matches(t[1..], items[1..])
         case AnyRun => Matches(t, items[1..]) || (t != [] && Matches(t[1..], items))
  }

  function Like(t: string, p: string): Option<bool> {
    match ParsePattern(p)
    case None => None
    case Some(items) => Some(Matches(t, items))
  }

  function Literally(s: string): seq<PatternItem> {
    seq(|s|, i requires 0 <= i < |s| => Exactly(s[i]))
  }

  ghost predicate Occurs(s: string, t: string) {
    exists k :: 0 <= k <= |t| && s <= t[k..]
  }

  lemma EscapedCharParses(c: char, tail: string)
    ensures ParsePattern(EscapeChar(c) + tail)
         == match ParsePattern(tail) case None => None case Some(items) => Some([Exactly(c)] + items)
  {
    var p := EscapeChar(c) + tail;
    if IsLikeSpecial(c) {
      assert p[0] == '\\' && p[1] == c && p[2..] == tail;
    } else {
      assert p[0] == c && p[1..] == tail;
    }
  }

  /** Escaped text contributes only literal items, whatever pattern follows it. */
  lemma {:induction false} LikeEscParses(s: string, p: string)
    ensures ParsePattern(LikeEsc(s) + p)
         == match ParsePattern(p) case None => None case Some(items) => Some(Literally(s) + items)
  {
    if s == [] {
      assert LikeEsc(s) + p == p;
      if ParsePattern(p).Some? { assert Literally(s) + ParsePattern(p).value == ParsePattern(p).value; }
    } else {
      LikeEscParses(s[1..], p);
      var tail := LikeEsc(s[1..]) + p;
      assert LikeEsc(s) + p == EscapeChar(s[0]) + tail;
      EscapedCharParses(s[0], tail);
      if ParsePattern(p).Some? {
        var items := ParsePattern(p).value;
        assert Literally(s) + items == [Exactly(s[0])] + (Literally(s[1..]) + items);
      }
    }
  }

  lemma {:induction false} PatternAppends(pre: string, p: string)
    requires ParsePattern(pre).Some?
    ensures ParsePattern(pre + p)
         == match ParsePattern(p) case None => None case Some(items) => Some(ParsePattern(pre).value + items)
    decreases |pre|
  {
    if pre == [] {
      assert pre + p == p;
      if ParsePattern(p).Some? { assert [] + ParsePattern(p).value == ParsePattern(p).value; }
    } else {
      var n := if pre[0] == '\\' then 2 else 1;
      PatternAppends(pre[n..], p);
      assert (pre + p)[n..] == pre[n..] + p && (pre + p)[0] == pre[0];
      if n == 2 { assert (pre + p)[1] == pre[1]; }
      if ParsePattern(p).Some? {
        var first := ParsePattern(pre).value[..1];
        assert ParsePattern(pre).value == first + ParsePattern(pre[n..]).value;
        assert first + (ParsePattern(pre[n..]).value + ParsePattern(p).value)
            == ParsePattern(pre).value + ParsePattern(p).value;
      }
    }
  }

  /** Put between any two patterns, the escape stands for its string and nothing else. */
  lemma LikeEscStaysLiteral(pre: string, s: string, p: string)
    requires ParsePattern(pre).Some? && ParsePattern(p).Some?
    ensures ParsePattern(pre + (LikeEsc(s) + p))
         == Some(ParsePattern(pre).value + (Literally(s) + ParsePattern(p).value))
  {
    LikeEscParses(s, p);
    PatternAppends(pre, LikeEsc(s) + p);
  }

  lemma PercentParses(p: string)
    ensures ParsePattern("%" + p)
         == match ParsePattern(p) case None => None case Some(items) => Some([AnyRun] + items)
  {
    assert ("%" + p)[0] == '%' && ("%" + p)[1..] == p;
  }

  lemma {:induction false} MatchesLiterally(t: string, s: string, items: seq<PatternItem>)
    ensures Matches(t, Literally(s) + items) <==> s <= t && Matches(t[|s|..], items)
  {
    var all := Literally(s) + items;
    if s == [] {
      assert all == items && t[0..] == t;
    } else {
      assert all[0] == Exactly(s[0]) && all[1..] == Literally(s[1..]) + items;
      if t != [] {
        MatchesLiterally(t[1..], s[1..], items);
        assert s[1..] <= t[1..] && s[0] == t[0] <==> s <= t by {
          assert s == [s[0]] + s[1..] && t == [t[0]] + t[1..];
        }
        if s <= t { assert t[1..][|s| - 1..] == t[|s|..]; }
      }
    }
  }

  lemma {:induction false} MatchesAnyRun(t: string, items: seq<PatternItem>)
    ensures Matches(t, [AnyRun] + items) <==> exists k :: 0 <= k <= |t| && Matches(t[k..], items)
    decreases |t|
  {
    var all := [AnyRun] + items;
    assert all[1..] == items && t[0..] == t;
    if t != [] {
      MatchesAnyRun(t[1..], items);
      forall k | 0 <= k <= |t| && Matches(t[k..], items)
        ensures Matches(t, all)
      {
        if k > 0 { assert t[1..][k - 1..] == t[k..]; }
      }
      if Matches(t[1..], all) {
        var k :| 0 <= k <= |t| - 1 && Matches(t[1..][k..], items);
        assert t[1..][k..] == t[k + 1..];
      }
    }
  }

  lemma MatchesEverything(t: string)
    ensures Matches(t, [AnyRun])
  {
    MatchesAnyRun(t, []);
    assert [AnyRun] + [] == [AnyRun] && t[|t|..] == [];
  }

  lemma LikeEscEquals(t: string, s: string)
    ensures Like(t, LikeEsc(s)) == Some(t == s)
  {
    LikeEscParses(s, "");
    assert LikeEsc(s) + "" == LikeEsc(s);
    MatchesLiterally(t, s, []);
  }

  lemma LikeEscPrefix(t: string, s: string)
    ensures Like(t, LikeEsc(s) + "%") == Some(s <= t)
  {
    assert "%" + "" == "%" && [AnyRun] + [] == [AnyRun];
    PercentParses("");
    LikeEscParses(s, "%");
    MatchesLiterally(t, s, [AnyRun]);
    if s <= t { MatchesEverything(t[|s|..]); }
  }

  lemma LikeEscContains(t: string, s: string)
    ensures Like(t, "%" + LikeEsc(s) + "%") == Some(Occurs(s, t))
  {
    var inner := Literally(s) + [AnyRun];
    assert "%" + "" == "%" && [AnyRun] + [] == [AnyRun];
    PercentParses("");
    LikeEscParses(s, "%");
    PercentParses(LikeEsc(s) + "%");
    assert "%" + (LikeEsc(s) + "%") == "%" + LikeEsc(s) + "%";
    MatchesAnyRun(t, inner);
    forall k | 0 <= k <= |t|
      ensures Matches(t[k..], inner) <==> s <= t[k..]
    {
      MatchesLiterally(t[k..], s, [AnyRun]);
      if s <= t[k..] { MatchesEverything(t[k..][|s|..]); }
    }
  }
}
