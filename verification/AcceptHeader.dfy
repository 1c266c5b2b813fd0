/** The Accept header parser of server/middleware as functions on octet strings: one per
    reading step, and the parse of a line and of a header. */
module AcceptHeader {
  import Float64
  import opened Int64
  import opened Wrappers

  type octet = c: char | c as int < 256 witness 'a'
  type Octets = seq<octet>

  // ---------- octet classes ----------

  const SEPARATORS: Octets := " \t\"(),/:;<=>?@[]\\{}"
  const SPACES: Octets := " \t\r\n"

  predicate IsSpace(c: octet) {
    c in SPACES
  }

  predicate IsToken(c: octet) {
    31 < c as int < 127 && c !in SEPARATORS
  }

  predicate IsTokenSlash(c: octet) {
    IsToken(c) || c == '/'
  }

  predicate IsDigit(c: octet) {
    '0' <= c <= '9'
  }

  predicate AllDigits(s: Octets) {
    forall i :: 0 <= i < |s| ==> IsDigit(s[i])
  }

  predicate StartsWith(s: Octets, c: octet) {
    s != [] && s[0] == c
  }

  // ---------- the reading steps ----------

  function SkipSpace(s: Octets): (r: Octets)
    ensures |r| <= |s|
  {
    if s == [] || !IsSpace(s[0]) then s else SkipSpace(s[1..])
  }

  /** The longest run of token or slash octets, and the rest. */
  function TokenSlash(s: Octets): (r: (Octets, Octets))
    ensures |r.0| + |r.1| == |s|
  {
    if s == [] || !IsTokenSlash(s[0]) then ([], s)
    else var (v, rest) := TokenSlash(s[1..]); ([s[0]] + v, rest)
  }

  function Digits(s: Octets): (r: (Octets, Octets))
    ensures |r.0| + |r.1| == |s| && AllDigits(r.0)
  {
    if s == [] || !IsDigit(s[0]) then ([], s)
    else var (ds, rest) := Digits(s[1..]); ([s[0]] + ds, rest)
  }

  function Pow10(n: nat): (p: nat)
    ensures p >= 1
  {
    if n == 0 then 1 else 10 * Pow10(n - 1)
  }

  function Digit(c: octet): (d: nat)
    requires IsDigit(c)
    ensures d <= 9
  {
    c as int - '0' as int
  }

  /** The number written by a run of decimal digits. */
  function Value(ds: Octets): nat
    requires AllDigits(ds)
  {
    if ds == [] then 0 else Digit(ds[0]) * Pow10(|ds| - 1) + Value(ds[1..])
  }

  /** A float64, for which zero has one sign. */
  datatype Float = Num(value: real) | PosInf | NegInf | NaN

  /** The comparison a < b of two float64s: false as soon as one of them is a NaN. */
  predicate Less(a: Float, b: Float) {
    match (a, b)
    case (Num(x), Num(y)) => x < y
    case (NegInf, _) => b.Num? || b.PosInf?
    case (Num(_), PosInf) => true
    case _ => false
  }

  predicate IsNegative(w: Float) {
    Less(w, Num(0.0))
  }

  /** The division of two ints, after their conversion to float64. */
  function Ratio(n: int, d: int): Float {
    if d != 0 then
      Float64.RoundInt(d);
      Num(Float64.Round(Float64.Round(n as real) / Float64.Round(d as real)))
    else if n > 0 then PosInf
    else if n < 0 then NegInf
    else NaN
  }

  function Plus(whole: real, w: Float): Float {
    match w
    case Num(x) => Num(Float64.Round(whole + x))
    case _ => w
  }

  /** What the code makes of the digits after a point: the number they write over the power
      of ten they call for, both of them in an int. */
  function Fraction(ds: Octets): Float
    requires AllDigits(ds)
  {
    Ratio(ToInt64(Value(ds)), ToInt64(Pow10(|ds|)))
  }

  /** A weight: 0 or 1, and any digits after a point. None where the code gives up. */
  function Quality(s: Octets): (r: Option<(Float, Octets)>)
    ensures r.Some? ==> |r.value.1| < |s|
  {
    if !StartsWith(s, '0') && !StartsWith(s, '1') then None
    else
      var whole := if s[0] == '0' then 0.0 else 1.0;
      if !StartsWith(s[1..], '.') then Some((Num(whole), s[1..]))
      else var (ds, rest) := Digits(s[2..]); Some((Plus(whole, Fraction(ds)), rest))
  }

  datatype Spec = Spec(value: Octets, q: Float)

  /** One element, and what follows it; None when it is malformed. */
  function Element(s: Octets): (r: Option<(Spec, Octets)>)
    ensures r.Some? ==> |r.value.1| < |s|
  {
    var (v, rest) := TokenSlash(s);
    var s1 := SkipSpace(rest);
    if v == [] then None
    else if !StartsWith(s1, ';') then Some((Spec(v, Num(1.0)), s1))
    else
      var s2 := SkipSpace(s1[1..]);
      if |s2| < 2 || s2[..2] != "q=" then None
      else match Quality(s2[2..])
           case None => None
           case Some((q, s3)) => if IsNegative(q) then None else Some((Spec(v, q), s3))
  }

  function Line(s: Octets): seq<Spec>
    decreases |s|
  {
    match Element(s)
    case None => []
    case Some((spec, rest)) =>
      var s1 := SkipSpace(rest);
      [spec] + if StartsWith(s1, ',') then Line(SkipSpace(s1[1..])) else []
  }

  /** The lines of a header are parsed apart, so a malformed element ends only its own. */
  function Header(lines: seq<Octets>): seq<Spec> {
    if lines == [] then [] else Line(lines[0]) + Header(lines[1..])
  }

  // ---------- one step unfolded ----------

  lemma Assoc(a: seq<Spec>, b: seq<Spec>, c: seq<Spec>)
    ensures a + b + c == a + (b + c)
  {
  }

  lemma LineStep(before: seq<Spec>, s: Octets, spec: Spec, rest: Octets)
    requires Element(s) == Some((spec, rest))
    ensures var s1 := SkipSpace(rest);
            before + Line(s) == before + [spec] + if StartsWith(s1, ',') then Line(SkipSpace(s1[1..])) else []
  {
    var s1 := SkipSpace(rest);
    var tail := if StartsWith(s1, ',') then Line(SkipSpace(s1[1..])) else [];
    assert Line(s) == [spec] + tail;
    Assoc(before, [spec], tail);
  }

  /** An element with a weight, from the reading steps it takes. */
  lemma ElementStep(s: Octets, v: Octets, r: Octets, q: Octets, x: Float, rest: Octets)
    requires v != [] && TokenSlash(s) == (v, r) && StartsWith(SkipSpace(r), ';')
    requires SkipSpace(SkipSpace(r)[1..]) == q && |q| >= 2 && q[..2] == "q="
    requires Quality(q[2..]) == Some((x, rest))
    ensures Element(s) == if IsNegative(x) then None else Some((Spec(v, x), rest))
  {
  }
}
