/** Rounding to float64: to the nearest number of 53 significant bits, a tie to the even
    one, as section 4.3.1 of IEEE 754-2019 has it. Overflow and the sign of zero are not
    modelled; nothing here comes near the one, and the other makes no difference. */
module Float64 {
  import opened Int64

  const BITS := 0x20_0000_0000_0000    // 2^53
  const LEAST := -1074                 // the exponent of the least float64

  /** m times 2^e. */
  function Dyadic(m: int, e: int): (x: real)
    ensures m > 0 ==> x > 0.0
    ensures m == 0 ==> x == 0.0
    decreases if e < 0 then -e else e
  {
    if e == 0 then m as real
    else if e > 0 then 2.0 * Dyadic(m, e - 1)
    else Dyadic(m, e + 1) / 2.0
  }

  function P(e: int): (p: real)
    ensures p > 0.0
  {
    Dyadic(1, e)
  }

  /** The float64s: at most 53 bits, at a multiple of the least one. */
  ghost predicate IsFloat(x: real) {
    exists m, e :: -BITS <= m <= BITS && LEAST <= e && x == Dyadic(m, e)
  }

  lemma DyadicStep(m: int, e: int)
    ensures Dyadic(m, e + 1) == 2.0 * Dyadic(m, e)
  {
  }

  lemma {:induction false} DyadicTwice(m: int, e: int)
    ensures Dyadic(2 * m, e) == Dyadic(m, e + 1)
    decreases if e < 0 then -e else e
  {
    DyadicStep(m, e);
    if e > 0 { DyadicTwice(m, e - 1); }
    if e < 0 { DyadicTwice(m, e + 1); }
  }

  lemma {:induction false} DyadicOrder(m: int, n: int, e: int)
    ensures m <= n <==> Dyadic(m, e) <= Dyadic(n, e)
    decreases if e < 0 then -e else e
  {
    if e > 0 { DyadicOrder(m, n, e - 1); }
    if e < 0 { DyadicOrder(m, n, e + 1); }
  }

  lemma {:induction false} DyadicNegated(m: int, e: int)
    ensures Dyadic(-m, e) == -Dyadic(m, e)
    decreases if e < 0 then -e else e
  {
    if e > 0 { DyadicNegated(m, e - 1); }
    if e < 0 { DyadicNegated(m, e + 1); }
  }

  lemma {:induction false} DyadicShift(m: int, n: nat, e: int)
    ensures Dyadic(m * Pow2(n), e) == Dyadic(m, n + e)
  {
    if n > 0 {
      assert m * Pow2(n) == 2 * (m * Pow2(n - 1));
      DyadicTwice(m * Pow2(n - 1), e);
      DyadicShift(m, n - 1, e + 1);
    }
  }

  lemma BitsArePow()
    ensures Pow2(53) == BITS && Pow2(52) == BITS / 2
  {
    assert Pow2(13) == 0x2000;
    Pow2Sum(13, 13);
    Pow2Sum(26, 26);
  }

  /** The two ends of a binade. */
  lemma BinadeEnds(e: int)
    ensures Dyadic(BITS, e) == P(53 + e) && Dyadic(BITS / 2, e) == P(52 + e)
  {
    BitsArePow();
    DyadicShift(1, 53, e);
    DyadicShift(1, 52, e);
  }

  lemma {:induction false} PMonotone(a: int, b: int)
    requires a <= b
    ensures P(a) <= P(b)
    decreases b - a
  {
    if a < b {
      PMonotone(a, b - 1);
      DyadicStep(1, b - 1);
    }
  }

  lemma {:induction false} PGrows(n: nat)
    ensures P(n) >= (n + 1) as real
  {
    if n > 0 { PGrows(n - 1); }
  }

  // ---------- the spacing of the floats around a number ----------

  /** The floats around x are the multiples of 2^e. */
  predicate Spaced(x: real, e: int) {
    LEAST <= e && x < P(53 + e) && (e == LEAST || P(52 + e) <= x)
  }

  /** From an exponent at which x has at most 53 bits, down to where it has 53. */
  function Down(x: real, e: int): (r: int)
    requires x < P(53 + e) && LEAST <= e
    ensures Spaced(x, r)
    decreases e - LEAST
  {
    if e == LEAST || P(52 + e) <= x then e else Down(x, e - 1)
  }

  /** From an exponent at which x has at least 53 bits, up to where it has 53. */
  function Up(x: real, e: int): (r: int)
    requires P(52 + e) <= x && -52 <= e
    ensures Spaced(x, r)
    decreases x.Floor - e
  {
    PGrows(53 + e);
    if x < P(53 + e) then e else Up(x, e + 1)
  }

  function Exponent(x: real): (e: int)
    ensures Spaced(x, e)
  {
    if x < 1.0 then Down(x, -53) else Up(x, -52)
  }

  /** A lower exponent is one of a lower binade. */
  lemma SpacedOrder(x: real, e: int, y: real, f: int)
    requires x <= y && Spaced(x, e) && Spaced(y, f)
    ensures e <= f
    ensures e < f ==> P(53 + e) <= P(52 + f)
  {
    if e > f { PMonotone(53 + f, 52 + e); }
    if e < f { PMonotone(53 + e, 52 + f); }
  }

  lemma SpacedAtMost(x: real, r: int, e: int)
    requires Spaced(x, r) && x < P(53 + e) && LEAST <= e
    ensures r <= e
  {
    if r > e { PMonotone(53 + e, 52 + r); }
  }

  // ---------- rounding to a multiple of 2^e ----------

  /** The nearest integer, a tie to the even one. */
  function NearestInt(t: real): (n: int)
    ensures t - 0.5 <= n as real <= t + 0.5
  {
    var f := t.Floor;
    var rest := t - f as real;
    if rest < 0.5 || (rest == 0.5 && f % 2 == 0) then f else f + 1
  }

  /** How many times 2^e the nearest multiple of it is. */
  function Multiple(x: real, e: int): int
    decreases if e < 0 then -e else e
  {
    if e == 0 then NearestInt(x)
    else if e > 0 then Multiple(x / 2.0, e - 1)
    else Multiple(2.0 * x, e + 1)
  }

  lemma {:induction false} MultipleMonotone(x: real, y: real, e: int)
    requires x <= y
    ensures Multiple(x, e) <= Multiple(y, e)
    decreases if e < 0 then -e else e
  {
    if e > 0 { MultipleMonotone(x / 2.0, y / 2.0, e - 1); }
    if e < 0 { MultipleMonotone(2.0 * x, 2.0 * y, e + 1); }
  }

  lemma {:induction false} MultipleExact(m: int, e: int)
    ensures Multiple(Dyadic(m, e), e) == m
    decreases if e < 0 then -e else e
  {
    if e > 0 { MultipleExact(m, e - 1); }
    if e < 0 { MultipleExact(m, e + 1); }
  }

  lemma {:induction false} MultipleClose(x: real, e: int)
    ensures -P(e) <= 2.0 * (Dyadic(Multiple(x, e), e) - x) <= P(e)
    decreases if e < 0 then -e else e
  {
    if e > 0 { MultipleClose(x / 2.0, e - 1); }
    if e < 0 { MultipleClose(2.0 * x, e + 1); }
  }

  lemma NearestIs(x: real, m: int)
    requires var off := 2.0 * (m as real - x); -1.0 < off < 1.0 || (-1.0 <= off <= 1.0 && m % 2 == 0)
    ensures NearestInt(x) == m
  {
    var f := x.Floor;
    assert m == f || m == f + 1;
  }

  /** It is the only one that near; a tie goes to the even one. */
  lemma {:induction false} MultipleIs(x: real, m: int, e: int)
    requires var off := 2.0 * (Dyadic(m, e) - x); -P(e) < off < P(e) || (-P(e) <= off <= P(e) && m % 2 == 0)
    ensures Multiple(x, e) == m
    decreases if e < 0 then -e else e
  {
    if e == 0 {
      NearestIs(x, m);
    } else if e > 0 {
      DyadicStep(1, e - 1);
      MultipleIs(x / 2.0, m, e - 1);
    } else {
      DyadicStep(1, e);
      MultipleIs(2.0 * x, m, e + 1);
    }
  }

  /** The multiple itself. */
  function Snap(x: real, e: int): real {
    Dyadic(Multiple(x, e), e)
  }

  lemma SnapExact(m: int, e: int, r: int)
    requires r <= e
    ensures Snap(Dyadic(m, e), r) == Dyadic(m, e)
  {
    DyadicShift(m, e - r, r);
    MultipleExact(m * Pow2(e - r), r);
  }

  lemma SnapMonotone(x: real, y: real, e: int)
    requires x <= y
    ensures Snap(x, e) <= Snap(y, e)
  {
    MultipleMonotone(x, y, e);
    DyadicOrder(Multiple(x, e), Multiple(y, e), e);
  }

  lemma MultipleBetween(m: int, x: real, n: int, e: int)
    requires Dyadic(m, e) <= x <= Dyadic(n, e)
    ensures m <= Multiple(x, e) <= n
  {
    MultipleExact(m, e);
    MultipleExact(n, e);
    MultipleMonotone(Dyadic(m, e), x, e);
    MultipleMonotone(x, Dyadic(n, e), e);
  }

  /** A number of a binade is rounded to 53 bits, the upper end of the binade included. */
  lemma SnapInBinade(x: real, e: int)
    requires 0.0 <= x && Spaced(x, e)
    ensures 0 <= Multiple(x, e) <= BITS && 0.0 <= Snap(x, e) <= P(53 + e)
    ensures e != LEAST ==> P(52 + e) <= Snap(x, e)
  {
    var m := Multiple(x, e);
    BinadeEnds(e);
    MultipleBetween(if e != LEAST then BITS / 2 else 0, x, BITS, e);
    DyadicOrder(m, BITS, e);
    DyadicOrder(BITS / 2, m, e);
  }

  // ---------- rounding ----------

  function RoundUnsigned(x: real): real
    requires 0.0 <= x
  {
    Snap(x, Exponent(x))
  }

  function Round(x: real): real {
    if x >= 0.0 then RoundUnsigned(x) else -RoundUnsigned(-x)
  }

  lemma RoundZero(x: real)
    requires x == 0.0
    ensures Round(x) == 0.0
  {
    MultipleExact(0, Exponent(x));
  }

  lemma RoundOdd(x: real)
    ensures Round(-x) == -Round(x)
  {
    if x == 0.0 { RoundZero(x); }
  }

  lemma EndOfBinade(e: int)
    ensures Dyadic(BITS, e) == Dyadic(BITS / 2, e + 1)
    ensures P(52 + (e + 1)) <= Dyadic(BITS, e) < P(53 + (e + 1))
  {
    DyadicTwice(BITS / 2, e);
    BinadeEnds(e + 1);
    DyadicOrder(BITS, BITS / 2, e + 1);
  }

  lemma ExactAt(m: nat, e: int, r: int)
    requires m <= BITS && LEAST <= e && Spaced(Dyadic(m, e), r)
    ensures Snap(Dyadic(m, e), r) == Dyadic(m, e)
  {
    if m < BITS {
      BinadeEnds(e);
      DyadicOrder(BITS, m, e);
      SpacedAtMost(Dyadic(m, e), r, e);
      SnapExact(m, e, r);
    } else {
      EndOfBinade(e);
      SpacedAtMost(Dyadic(m, e), r, e + 1);
      SnapExact(BITS / 2, e + 1, r);
    }
  }

  /** A number of at most 53 bits is not changed. */
  lemma RoundExact(m: int, e: int)
    requires -BITS <= m <= BITS && LEAST <= e
    ensures Round(Dyadic(m, e)) == Dyadic(m, e)
  {
    DyadicNegated(m, e);
    if m >= 0 {
      ExactAt(m, e, Exponent(Dyadic(m, e)));
    } else {
      ExactAt(-m, e, Exponent(Dyadic(-m, e)));
    }
  }

  lemma FloatIsExact(x: real)
    requires IsFloat(x)
    ensures Round(x) == x
  {
    var m, e :| -BITS <= m <= BITS && LEAST <= e && x == Dyadic(m, e);
    RoundExact(m, e);
  }

  lemma RoundIsFloat(x: real)
    ensures IsFloat(Round(x))
  {
    var y := if x >= 0.0 then x else -x;
    var m, e := Multiple(y, Exponent(y)), Exponent(y);
    SnapInBinade(y, e);
    DyadicNegated(m, e);
    assert Round(x) == Dyadic(if x >= 0.0 then m else -m, e);
  }

  lemma SnapOrder(x: real, e: int, y: real, f: int)
    requires 0.0 <= x <= y && Spaced(x, e) && Spaced(y, f)
    ensures 0.0 <= Snap(x, e) <= Snap(y, f)
  {
    SpacedOrder(x, e, y, f);
    SnapInBinade(x, e);
    SnapInBinade(y, f);
    if e == f { SnapMonotone(x, y, e); }
  }

  lemma UnsignedMonotone(x: real, y: real)
    requires 0.0 <= x <= y
    ensures 0.0 <= RoundUnsigned(x) <= RoundUnsigned(y)
  {
    SnapOrder(x, Exponent(x), y, Exponent(y));
  }

  lemma RoundSign(x: real)
    ensures x >= 0.0 ==> Round(x) >= 0.0
    ensures x <= 0.0 ==> Round(x) <= 0.0
  {
    if x >= 0.0 { UnsignedMonotone(x, x); } else { UnsignedMonotone(-x, -x); }
    if x == 0.0 { RoundZero(x); }
  }

  lemma NonNegativeMonotone(x: real, y: real)
    requires 0.0 <= x <= y
    ensures Round(x) <= Round(y)
  {
    UnsignedMonotone(x, y);
  }

  /** Rounding keeps the order. */
  lemma RoundMonotone(x: real, y: real)
    requires x <= y
    ensures Round(x) <= Round(y)
  {
    if x >= 0.0 {
      NonNegativeMonotone(x, y);
    } else if y > 0.0 {
      RoundSign(x);
      RoundSign(y);
    } else {
      NonNegativeMonotone(-y, -x);
      RoundOdd(x);
      RoundOdd(y);
    }
  }

  /** So it lies between the floats that the number lies between. */
  lemma RoundBetween(a: real, x: real, b: real)
    requires IsFloat(a) && IsFloat(b) && a <= x <= b
    ensures a <= Round(x) <= b
  {
    FloatIsExact(a);
    FloatIsExact(b);
    RoundMonotone(a, x);
    RoundMonotone(x, b);
  }

  lemma SnapClose(x: real, r: int, e: int)
    requires Spaced(x, r) && x < P(53 + e) && LEAST <= e
    ensures -P(e) <= 2.0 * (Snap(x, r) - x) <= P(e)
  {
    SpacedAtMost(x, r, e);
    MultipleClose(x, r);
    PMonotone(r, e);
  }

  /** A rounded number is off by at most half the spacing. */
  lemma RoundClose(x: real, e: int)
    requires LEAST <= e && -P(53 + e) < x < P(53 + e)
    ensures -P(e) <= 2.0 * (Round(x) - x) <= P(e)
  {
    var y := if x >= 0.0 then x else -x;
    SnapClose(y, Exponent(y), e);
  }

  /** The rounding of a number in a given binade, from a multiple of its spacing at most
      half of it away. */
  lemma RoundIs(x: real, m: nat, e: int)
    requires LEAST <= e && P(52 + e) <= x < P(53 + e)
    requires var off := 2.0 * (Dyadic(m, e) - x); -P(e) < off < P(e) || (-P(e) <= off <= P(e) && m % 2 == 0)
    ensures Round(x) == Dyadic(m, e)
  {
    SpacedOrder(x, Exponent(x), x, e);
    SpacedOrder(x, e, x, Exponent(x));
    MultipleIs(x, m, e);
  }

  lemma IntIsFloat(n: int)
    requires -BITS <= n <= BITS
    ensures IsFloat(n as real)
  {
    assert n as real == Dyadic(n, 0);
  }

  lemma NegatedIsFloat(x: real)
    requires IsFloat(x)
    ensures IsFloat(-x)
  {
    var m, e :| -BITS <= m <= BITS && LEAST <= e && x == Dyadic(m, e);
    DyadicNegated(m, e);
    assert -x == Dyadic(-m, e);
  }

  // ---------- powers of two as numbers ----------

  lemma Halves(d: real, q: real)
    ensures (d / 2.0) * (2.0 * q) == d * q
  {
  }

  lemma {:induction false} DyadicTimes(m: int, n: int)
    requires n >= 0
    ensures Dyadic(m, -n) * Pow2(n) as real == m as real
    decreases n
  {
    if n > 0 {
      DyadicTimes(m, n - 1);
      Halves(Dyadic(m, -n + 1), Pow2(n - 1) as real);
    }
  }

  lemma DivideBack(d: real, q: real, m: real)
    requires q != 0.0 && d * q == m
    ensures d == m / q
  {
  }

  /** Fractions over a power of two. */
  lemma FractionIsFloat(m: int, n: int)
    requires -BITS <= m <= BITS && 0 <= n <= 1074
    ensures Dyadic(m, -n) == m as real / Pow2(n) as real && IsFloat(Dyadic(m, -n))
  {
    DyadicTimes(m, n);
    DivideBack(Dyadic(m, -n), Pow2(n) as real, m as real);
  }

  /** Multiples of one. */
  lemma MultipleIsFloat(m: int, n: nat)
    requires -BITS <= m <= BITS
    ensures Dyadic(m, n) == (m * Pow2(n)) as real && IsFloat(Dyadic(m, n))
  {
    DyadicShift(m, n, 0);
  }

  lemma RoundAtLeast(a: real, x: real)
    requires IsFloat(a) && a <= x
    ensures a <= Round(x)
  {
    FloatIsExact(a);
    RoundMonotone(a, x);
  }

  lemma RoundAtMost(x: real, b: real)
    requires IsFloat(b) && x <= b
    ensures Round(x) <= b
  {
    FloatIsExact(b);
    RoundMonotone(x, b);
  }

  /** A nonzero int stays on its side of zero. */
  lemma RoundInt(n: int)
    ensures n > 0 ==> Round(n as real) >= 1.0
    ensures n < 0 ==> Round(n as real) <= -1.0
    ensures n == 0 ==> Round(n as real) == 0.0
  {
    IntIsFloat(1);
    IntIsFloat(-1);
    if n > 0 { RoundAtLeast(1.0, n as real); }
    if n < 0 { RoundAtMost(n as real, -1.0); }
    if n == 0 { RoundZero(n as real); }
  }
}
