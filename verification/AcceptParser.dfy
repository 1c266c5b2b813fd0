/** The parser's own loops, over the octet table they look octets up in. */
module AcceptParser {
  import opened Int64
  import opened Wrappers
  import opened AcceptHeader
  import opened AcceptWeights

  datatype OctetType = OctetType(isToken: bool, isSpace: bool)

  ghost predicate Classifies(types: array<OctetType>)
    reads types
  {
    types.Length == 256 && forall c: octet :: types[c as int] == OctetType(IsToken(c), IsSpace(c))
  }

  method InitOctetTypes() returns (types: array<OctetType>)
    ensures fresh(types) && Classifies(types)
  {
    types := new OctetType[256](_ => OctetType(false, false));
    for c := 0 to 256
      invariant forall b: octet :: b as int < c ==> types[b as int] == OctetType(IsToken(b), IsSpace(b))
    {
      var o: octet := c as char;
      var t := OctetType(false, false);
      var isCtl := c <= 31 || c == 127;
      var isChar := 0 <= c <= 127;
      var isSeparator := o in SEPARATORS;
      if o in SPACES {
        t := t.(isSpace := true);
      }
      if isChar && !isCtl && !isSeparator {
        t := t.(isToken := true);
      }
      types[c] := t;
    }
  }

  method SkipSpaces(types: array<OctetType>, s: Octets) returns (rest: Octets)
    requires Classifies(types)
    ensures rest == SkipSpace(s)
  {
    var i := 0;
    while i < |s|
      invariant 0 <= i <= |s| && SkipSpace(s[i..]) == SkipSpace(s)
    {
      assert SkipSpace(s[i..]) == if IsSpace(s[i]) then SkipSpace(s[i..][1..]) else s[i..];
      assert s[i..][1..] == s[i + 1..];
      if !types[s[i] as int].isSpace { break; }
      i := i + 1;
    }
    return s[i..];
  }

  lemma TokenSlashStep(s: Octets, i: nat)
    requires i < |s|
    ensures !IsTokenSlash(s[i]) ==> TokenSlash(s[i..]) == ([], s[i..])
    ensures IsTokenSlash(s[i]) ==>
              s[..i] + TokenSlash(s[i..]).0 == s[..i + 1] + TokenSlash(s[i + 1..]).0
              && TokenSlash(s[i..]).1 == TokenSlash(s[i + 1..]).1
  {
    assert s[i..][1..] == s[i + 1..] && s[i..][0] == s[i];
    assert s[..i + 1] == s[..i] + [s[i]];
  }

  method ExpectTokenSlash(types: array<OctetType>, s: Octets) returns (token: Octets, rest: Octets)
    requires Classifies(types)
    ensures (token, rest) == TokenSlash(s)
  {
    var i := 0;
    while i < |s|
      invariant 0 <= i <= |s|
      invariant TokenSlash(s).0 == s[..i] + TokenSlash(s[i..]).0 && TokenSlash(s).1 == TokenSlash(s[i..]).1
    {
      var b := s[i];
      TokenSlashStep(s, i);
      if !types[b as int].isToken && b != '/' { break; }
      i := i + 1;
    }
    if i < |s| { TokenSlashStep(s, i); }
    assert s[..i] + [] == s[..i];
    return s[..i], s[i..];
  }

  lemma DigitsStep(t: Octets, i: nat)
    requires i < |t| && AllDigits(t[..i])
    ensures !IsDigit(t[i]) ==> Digits(t[i..]) == ([], t[i..])
    ensures IsDigit(t[i]) ==>
              t[..i] + Digits(t[i..]).0 == t[..i + 1] + Digits(t[i + 1..]).0
              && Digits(t[i..]).1 == Digits(t[i + 1..]).1
    ensures IsDigit(t[i]) ==> AllDigits(t[..i + 1]) && Value(t[..i + 1]) == Value(t[..i]) * 10 + Digit(t[i])
  {
    assert t[i..][1..] == t[i + 1..] && t[i..][0] == t[i];
    assert t[..i + 1] == t[..i] + [t[i]];
    if IsDigit(t[i]) { ValueAppend(t[..i], t[i]); }
  }

  /** The digits after a weight's point: the number they write, over d, both in an int. */
  method ReadDigits(t: Octets) returns (n: int, d: int, rest: Octets)
    ensures var ds := Digits(t).0; n == ToInt64(Value(ds)) && d == ToInt64(Pow10(|ds|))
    ensures rest == Digits(t).1
  {
    var i := 0;
    n, d := 0, 1;
    while i < |t|
      invariant 0 <= i <= |t|
      invariant Digits(t).0 == t[..i] + Digits(t[i..]).0 && Digits(t).1 == Digits(t[i..]).1
      invariant AllDigits(t[..i])
      invariant n == ToInt64(Value(t[..i])) && d == ToInt64(Pow10(i))
    {
      var b := t[i];
      DigitsStep(t, i);
      if b < '0' || b > '9' { break; }
      AccumulatorSteps(Value(t[..i]), b as int, Pow10(i));
      n := ToInt64(ToInt64(ToInt64(n * 10) + b as int) - '0' as int);
      d := ToInt64(d * 10);
      i := i + 1;
    }
    if i < |t| { DigitsStep(t, i); }
    assert t[..i] + [] == t[..i];
    rest := t[i..];
  }

  /** The steps of the loop wrap in the middle; the accumulators do not notice. */
  lemma AccumulatorSteps(v: nat, b: int, p: nat)
    ensures ToInt64(ToInt64(ToInt64(ToInt64(v) * 10) + b) - '0' as int) == ToInt64(v * 10 + (b - '0' as int))
    ensures ToInt64(ToInt64(p) * 10) == ToInt64(10 * p)
  {
    WrapStep(v, 10, 0);
    WrapStep(v * 10, 1, b);
    WrapStep(v * 10 + b, 1, -('0' as int));
    WrapStep(p, 10, 0);
  }

  method ExpectQuality(s: Octets) returns (q: Float, rest: Octets)
    ensures (q, rest) == match Quality(s) case None => (Num(-1.0), []) case Some(read) => read
  {
    var whole;
    if |s| == 0 { return Num(-1.0), ""; }
    if s[0] == '0' { whole := 0.0; }
    else if s[0] == '1' { whole := 1.0; }
    else { return Num(-1.0), ""; }
    var t := s[1..];
    if !StartsWith(t, '.') { return Num(whole), t; }
    t := t[1..];
    assert t == s[2..];
    var n, d;
    n, d, rest := ReadDigits(t);
    q := Plus(whole, Ratio(n, d));
  }

  /** The reading of one element in the inner loop. */
  method ReadElement(types: array<OctetType>, line: Octets) returns (ok: bool, spec: Spec, s: Octets)
    requires Classifies(types)
    ensures Element(line) == if ok then Some((spec, s)) else None
  {
    var value;
    spec := Spec([], Num(1.0));
    value, s := ExpectTokenSlash(types, line);
    if value == [] { return false, spec, s; }
    spec := Spec(value, Num(1.0));
    s := SkipSpaces(types, s);
    if StartsWith(s, ';') {
      s := SkipSpaces(types, s[1..]);
      if |s| < 2 || s[..2] != "q=" { return false, spec, s; }
      var q;
      q, s := ExpectQuality(s[2..]);
      if IsNegative(q) { return false, spec, s; }
      spec := Spec(value, q);
    }
    ok := true;
  }

  /** The inner loop; leaving it is the code's `continue loop`. */
  method ParseLine(types: array<OctetType>, specs: seq<Spec>, line: Octets) returns (specs': seq<Spec>)
    requires Classifies(types)
    ensures specs' == specs + Line(line)
  {
    var s := line;
    specs' := specs;
    while true
      invariant specs' + Line(s) == specs + Line(line)
      decreases |s|
    {
      var ok, spec, rest := ReadElement(types, s);
      if !ok { return; }
      LineStep(specs', s, spec, rest);
      specs' := specs' + [spec];
      s := SkipSpaces(types, rest);
      if !StartsWith(s, ',') { return; }
      s := SkipSpaces(types, s[1..]);
    }
  }

  lemma HeaderPrefix(lines: seq<Octets>, i: nat)
    requires i < |lines|
    ensures Header(lines[..i + 1]) == Header(lines[..i]) + Line(lines[i])
  {
    HeaderAppend(lines[..i], lines[i]);
    assert lines[..i + 1] == lines[..i] + [lines[i]];
  }

  lemma {:induction false} HeaderAppend(lines: seq<Octets>, line: Octets)
    ensures Header(lines + [line]) == Header(lines) + Line(line)
  {
    var all := lines + [line];
    if lines == [] {
      assert all[1..] == [] && all[0] == line;
    } else {
      HeaderAppend(lines[1..], line);
      assert all[1..] == lines[1..] + [line] && all[0] == lines[0];
      Assoc(Line(lines[0]), Header(lines[1..]), Line(line));
    }
  }

  method ParseAccept(types: array<OctetType>, lines: seq<Octets>) returns (specs: seq<Spec>)
    requires Classifies(types)
    ensures specs == Header(lines)
  {
    specs := [];
    for i := 0 to |lines|
      invariant specs == Header(lines[..i])
    {
      HeaderPrefix(lines, i);
      specs := ParseLine(types, specs, lines[i]);
    }
    assert lines[..|lines|] == lines;
  }
}
