/** What float64 makes of a weight: which weights compare as they are written, which come
    out over 1, and which come out negative and are turned away. */
module WeightReading {
  import opened Int64
  import opened Float64
  import opened AcceptHeader
  import opened AcceptWeights

  // ---------- some roundings ----------

  lemma Powers()
    ensures Pow2(10) == 0x400 && Pow2(19) == 0x8_0000 && Pow2(44) == 0x1000_0000_0000
    ensures Pow2(52) == 0x10_0000_0000_0000 && Pow2(53) == BITS && Pow2(60) == 0x1000_0000_0000_0000
    ensures Pow2(62) == 0x4000_0000_0000_0000 && Pow2(63) == 0x8000_0000_0000_0000
  {
    BitsArePow();
    assert Pow2(10) == 0x400 && Pow2(9) == 0x200;
    Pow2Sum(10, 9);
    Pow2Sum(53, 9);
    assert Pow2(54) == 2 * Pow2(53) && Pow2(60) * 4 == Pow2(62);
    Pow2Sum(44, 9);
  }

  const SPACING := 1.0 / 4503599627370496.0    // of the floats from 1 up, 2^-52

  /** Fractions in steps of SPACING; k is 52, and not written out so as not to be computed
      with. */
  lemma Steps(m: nat, k: int)
    requires m <= BITS && k == 52
    ensures Dyadic(m, -k) == m as real * SPACING
  {
    Powers();
    FractionIsFloat(m, k);
  }

  /** The rounding of a number from 1 up to 2. */
  lemma RoundFromOne(x: real, m: nat, k: int)
    requires k == 52 && 1.0 <= x < 2.0 && m <= BITS
    requires var off := 2.0 * (m as real * SPACING - x);
             -SPACING < off < SPACING || (-SPACING <= off <= SPACING && m % 2 == 0)
    ensures Round(x) == m as real * SPACING
  {
    Steps(m, k);
    Steps(1, k);
    BinadeEnds(-k);
    Steps(BITS, k);
    Steps(BITS / 2, k);
    RoundIs(x, m, -k);
  }

  /** A number over 1 is rounded to 1 up to half a spacing, and not beyond. */
  lemma RoundNearOne(x: real)
    ensures 1.0 <= x <= 1.0 + SPACING / 2.0 ==> Round(x) == 1.0
    ensures 1.0 + SPACING / 2.0 < x < 1.0 + SPACING ==> Round(x) == 1.0 + SPACING
  {
    if 1.0 <= x <= 1.0 + SPACING / 2.0 {
      RoundFromOne(x, BITS / 2, 52);
    } else if 1.0 + SPACING / 2.0 < x < 1.0 + SPACING {
      RoundFromOne(x, BITS / 2 + 1, 52);
    }
  }

  /** The rounding of an int of 63 bits, to a multiple of 1024. */
  lemma RoundLarge(v: nat, m: nat, k: nat)
    requires k == 10 && 0x4000_0000_0000_0000 <= v < 0x8000_0000_0000_0000 && m <= BITS
    requires -512 < m * 1024 - v < 512 || (-512 <= m * 1024 - v <= 512 && m % 2 == 0)
    ensures Round(v as real) == (m * 1024) as real
  {
    Powers();
    MultipleIsFloat(m, k);
    MultipleIsFloat(1, k);
    BinadeEnds(k);
    MultipleIsFloat(BITS, k);
    MultipleIsFloat(BITS / 2, k);
    RoundIs(v as real, m, k);
  }

  // ---------- readings ----------

  /** The weight read from 0 or 1 and a fraction. */
  function Reading(whole: real, x: real): real {
    Round(whole + Round(x))
  }

  predicate IsWhole(whole: real) {
    whole == 0.0 || whole == 1.0
  }

  /** The number that 0 or 1 and the digits after its point write. */
  function Written(whole: real, ds: Octets): real
    requires AllDigits(ds)
  {
    whole + Value(ds) as real / Pow10(|ds|) as real
  }

  lemma UnitRange(n: real, d: real)
    requires 0.0 <= n <= d && d > 0.0
    ensures 0.0 <= n / d <= 1.0
    ensures n < d ==> n / d < 1.0
  {
  }

  lemma SmallInts()
    ensures IsFloat(0.0) && IsFloat(1.0) && IsFloat(2.0) && IsFloat(-1.0)
  {
    IntIsFloat(0);
    IntIsFloat(1);
    IntIsFloat(2);
    IntIsFloat(-1);
  }

  lemma RoundUnit(x: real)
    requires 0.0 <= x <= 1.0
    ensures 0.0 <= Round(x) <= 1.0
  {
    SmallInts();
    RoundBetween(0.0, x, 1.0);
  }

  lemma ReadingBounds(whole: real, x: real)
    requires IsWhole(whole) && 0.0 <= x <= 1.0
    ensures whole <= Reading(whole, x) <= whole + 1.0
  {
    RoundUnit(x);
    SmallInts();
    RoundBetween(whole, whole + Round(x), whole + 1.0);
  }

  lemma {:induction false} Pow5Monotone(a: nat, b: nat)
    requires a <= b
    ensures Pow5(a) <= Pow5(b)
    decreases b
  {
    if a < b { Pow5Monotone(a, b - 1); }
  }

  lemma {:induction false} Pow5Sum(a: nat, b: nat)
    ensures Pow5(a + b) == Pow5(a) * Pow5(b)
  {
    if a > 0 { Pow5Sum(a - 1, b); }
  }

  lemma PowIsFloat(k: nat)
    requires k <= 18
    ensures IsFloat(Pow10(k) as real)
  {
    assert Pow5(9) == 1953125;
    Pow5Sum(9, 9);
    Pow5Monotone(k, 18);
    OddPart(k);
    MultipleIsFloat(Pow5(k), k);
  }

  /** What is divided, for at most 18 digits. */
  function ReadFraction(ds: Octets): real
    requires AllDigits(ds)
  {
    Round(Value(ds) as real) / Pow10(|ds|) as real
  }

  lemma ReadFractionRange(v: nat, p: nat)
    requires v <= p && 0 < p && IsFloat(p as real)
    ensures 0.0 <= Round(v as real) / p as real <= 1.0
  {
    SmallInts();
    RoundBetween(0.0, v as real, p as real);
    UnitRange(Round(v as real), p as real);
  }

  /** A quotient by an int that is a float64. */
  lemma RatioOver(whole: real, n: int, d: int)
    requires d > 0 && IsFloat(d as real)
    ensures Plus(whole, Ratio(n, d)) == Num(Reading(whole, Round(n as real) / d as real))
  {
    FloatIsExact(d as real);
  }

  lemma ShortIsReading(whole: real, ds: Octets)
    requires AllDigits(ds) && |ds| <= 18
    ensures Plus(whole, Fraction(ds)) == Num(Reading(whole, ReadFraction(ds)))
  {
    ValueBound(ds);
    DivisorExactly(|ds|);
    PowIsFloat(|ds|);
    RatioOver(whole, Value(ds), Pow10(|ds|));
  }

  lemma ShortFraction(ds: Octets)
    requires AllDigits(ds) && |ds| <= 18
    ensures 0.0 <= ReadFraction(ds) <= 1.0
  {
    ValueBound(ds);
    PowIsFloat(|ds|);
    ReadFractionRange(Value(ds), Pow10(|ds|));
  }

  lemma Pow15()
    ensures Pow10(15) == 1_000_000_000_000_000
  {
    Pow18And19();
    assert Pow10(3) == 1000;
    PowSum(3, 15);
  }

  lemma TinyIsReading(whole: real, ds: Octets)
    requires AllDigits(ds) && |ds| <= 18 && Value(ds) <= BITS
    ensures Plus(whole, Fraction(ds)) == Num(Reading(whole, Value(ds) as real / Pow10(|ds|) as real))
  {
    ShortIsReading(whole, ds);
    IntIsFloat(Value(ds));
    FloatIsExact(Value(ds) as real);
  }

  // ---------- up to 15 digits ----------

  lemma Spacings(k: int)
    requires k == 52
    ensures P(-k) == SPACING && P(-k + 1) == 2.0 * SPACING && 2.0 * P(-k - 1) == SPACING
    ensures P(53 + (-k + 1)) == 4.0 && P(53 + (-k - 1)) == 1.0
  {
    assert 53 + (-k + 1) == 2 && P(2) == 4.0 && P(0) == 1.0;
    Steps(1, k);
    DyadicStep(1, -k);
    DyadicStep(1, -k - 1);
  }

  /** A weight is read closer to what it is than half of 10^-15. */
  lemma ReadingIsClose(whole: real, x: real, k: int)
    requires k == 52 && IsWhole(whole) && 0.0 <= x < 1.0
    ensures -0.0000000000000005 < Reading(whole, x) - (whole + x) < 0.0000000000000005
  {
    Spacings(k);
    SmallInts();
    RoundBetween(0.0, x, 1.0);
    RoundClose(x, -k - 1);
    RoundClose(whole + Round(x), -k + 1);
  }

  lemma Units(whole: int, v: nat, p: nat, q: nat)
    requires p >= 1
    ensures (whole as real + v as real / p as real) * (p * q) as real == (whole * (p * q) + v * q) as real
  {
    var x := v as real / p as real;
    assert x * p as real == v as real;
    Distribute(whole as real, x, p as real, q as real);
    Casts(p, q);
    Casts(v, q);
    Casts(whole, p * q);
  }

  lemma Casts(a: int, b: int)
    ensures (a * b) as real == a as real * b as real
  {
  }

  lemma Distribute(w: real, x: real, p: real, q: real)
    ensures (w + x) * (p * q) == w * (p * q) + (x * p) * q
  {
  }

  /** A weight of at most 15 digits is a multiple of 10^-15. */
  lemma InUnits(whole: int, ds: Octets) returns (units: int)
    requires AllDigits(ds) && |ds| <= 15
    ensures Written(whole as real, ds) * 1000000000000000.0 == units as real
  {
    var p, q := Pow10(|ds|), Pow10(15 - |ds|);
    PowSum(|ds|, 15 - |ds|);
    Pow15();
    units := whole * (p * q) + Value(ds) * q;
    Units(whole, Value(ds), p, q);
  }

  /** The two weights are read as numbers and compare as they are written. */
  predicate Compares(whole1: real, ds1: Octets, whole2: real, ds2: Octets)
    requires AllDigits(ds1) && AllDigits(ds2)
  {
    var a, b := Plus(whole1, Fraction(ds1)), Plus(whole2, Fraction(ds2));
    a.Num? && b.Num? && (Less(a, b) <==> Written(whole1, ds1) < Written(whole2, ds2))
  }

  lemma ReadClosely(whole: real, ds: Octets)
    requires IsWhole(whole) && AllDigits(ds) && |ds| <= 15
    ensures var x := Value(ds) as real / Pow10(|ds|) as real;
            0.0 <= x < 1.0 && Plus(whole, Fraction(ds)) == Num(Reading(whole, x))
            && -0.0000000000000005 < Reading(whole, x) - Written(whole, ds) < 0.0000000000000005
  {
    ValueBound(ds);
    PowMonotone(|ds|, 15);
    Pow15();
    TinyIsReading(whole, ds);
    UnitRange(Value(ds) as real, Pow10(|ds|) as real);
    ReadingIsClose(whole, Value(ds) as real / Pow10(|ds|) as real, 52);
  }

  lemma ApartByAUnit(whole1: real, ds1: Octets, whole2: real, ds2: Octets)
    requires IsWhole(whole1) && IsWhole(whole2) && AllDigits(ds1) && AllDigits(ds2)
    requires |ds1| <= 15 && |ds2| <= 15 && Written(whole1, ds1) < Written(whole2, ds2)
    ensures Written(whole2, ds2) - Written(whole1, ds1) >= 0.000000000000001
  {
    var m := InUnits(if whole1 == 0.0 then 0 else 1, ds1);
    var n := InUnits(if whole2 == 0.0 then 0 else 1, ds2);
    assert m < n;
  }

  lemma ShortLess(whole1: real, ds1: Octets, whole2: real, ds2: Octets)
    requires IsWhole(whole1) && IsWhole(whole2) && AllDigits(ds1) && AllDigits(ds2)
    requires |ds1| <= 15 && |ds2| <= 15 && Written(whole1, ds1) < Written(whole2, ds2)
    ensures Less(Plus(whole1, Fraction(ds1)), Plus(whole2, Fraction(ds2)))
  {
    ReadClosely(whole1, ds1);
    ReadClosely(whole2, ds2);
    ApartByAUnit(whole1, ds1, whole2, ds2);
  }

  lemma SameParts(whole1: real, x1: real, whole2: real, x2: real)
    requires IsWhole(whole1) && IsWhole(whole2) && 0.0 <= x1 < 1.0 && 0.0 <= x2 < 1.0
    requires whole1 + x1 == whole2 + x2
    ensures whole1 == whole2 && x1 == x2
  {
  }

  lemma ShortSame(whole1: real, ds1: Octets, whole2: real, ds2: Octets)
    requires IsWhole(whole1) && IsWhole(whole2) && AllDigits(ds1) && AllDigits(ds2)
    requires |ds1| <= 15 && |ds2| <= 15 && Written(whole1, ds1) == Written(whole2, ds2)
    ensures Plus(whole1, Fraction(ds1)) == Plus(whole2, Fraction(ds2))
  {
    ReadClosely(whole1, ds1);
    ReadClosely(whole2, ds2);
    SameParts(whole1, Value(ds1) as real / Pow10(|ds1|) as real, whole2, Value(ds2) as real / Pow10(|ds2|) as real);
  }

  /** Weights of at most 15 digits compare as they are written. */
  lemma ShortCompare(whole1: real, ds1: Octets, whole2: real, ds2: Octets)
    requires IsWhole(whole1) && IsWhole(whole2) && AllDigits(ds1) && AllDigits(ds2)
    requires |ds1| <= 15 && |ds2| <= 15
    ensures Compares(whole1, ds1, whole2, ds2)
  {
    ReadClosely(whole1, ds1);
    ReadClosely(whole2, ds2);
    if Written(whole1, ds1) < Written(whole2, ds2) {
      ShortLess(whole1, ds1, whole2, ds2);
    } else if Written(whole2, ds2) < Written(whole1, ds1) {
      ShortLess(whole2, ds2, whole1, ds1);
    } else {
      ShortSame(whole1, ds1, whole2, ds2);
    }
  }

  // ---------- over 1 ----------

  lemma ReadsAsOne(x: real)
    requires 0.0 <= x <= SPACING / 2.0
    ensures Reading(1.0, x) == 1.0
  {
    HalfSpacing(52);
    SmallInts();
    RoundBetween(0.0, x, SPACING / 2.0);
    RoundNearOne(1.0 + Round(x));
  }

  lemma NotOverOne(ds: Octets)
    requires AllDigits(ds) && |ds| <= 18 && Value(ds) * BITS <= Pow10(|ds|)
    ensures Plus(1.0, Fraction(ds)) == Num(1.0)
  {
    DivisorExactly(|ds|);
    TinyIsReading(1.0, ds);
    SmallFraction(Value(ds), Pow10(|ds|));
  }

  lemma SmallFraction(v: nat, p: nat)
    requires p > 0 && v * BITS <= p
    ensures Reading(1.0, v as real / p as real) == 1.0
  {
    AtMost(v, p);
    ReadsAsOne(v as real / p as real);
  }

  lemma AtMost(v: nat, p: nat)
    requires p > 0
    ensures v * BITS <= p <==> v as real / p as real <= SPACING / 2.0
    ensures 0.0 <= v as real / p as real
  {
    assert v as real / p as real * p as real == v as real;
  }

  lemma HalfSpacing(k: int)
    requires k == 52
    ensures IsFloat(SPACING / 2.0) && IsFloat(129.0 * SPACING / 256.0) && IsFloat(-SPACING)
  {
    Powers();
    FractionIsFloat(1, k + 1);
    FractionIsFloat(129, k + 8);
    FractionIsFloat(1, k);
    NegatedIsFloat(SPACING);
  }

  lemma ReadsOverOne(x: real)
    requires 129.0 * SPACING / 256.0 <= x <= 1.0
    ensures 1.0 < Reading(1.0, x)
  {
    var y := 129.0 * SPACING / 256.0;
    HalfSpacing(52);
    RoundAtLeast(y, x);
    RoundNearOne(1.0 + y);
    RoundMonotone(1.0 + y, 1.0 + Round(x));
  }

  /** For at most 18 digits, what is over half a spacing is well over it. */
  lemma WellOver(v: nat, p: nat)
    requires 0 < p <= 1_000_000_000_000_000 || p == 10_000_000_000_000_000
             || p == 100_000_000_000_000_000 || p == 1_000_000_000_000_000_000
    requires v * BITS > p
    ensures v * 0x1000_0000_0000_0000 >= 129 * p
  {
  }

  lemma ShortPowers(k: nat)
    requires k <= 18
    ensures var p := Pow10(k);
            0 < p <= 1_000_000_000_000_000 || p == 10_000_000_000_000_000
            || p == 100_000_000_000_000_000 || p == 1_000_000_000_000_000_000
  {
    Pow18And19();
    Pow15();
    if k <= 15 {
      PowMonotone(k, 15);
    } else {
      PowSum(k - 15, 15);
      assert Pow10(1) == 10 && Pow10(2) == 100 && Pow10(3) == 1000;
    }
  }

  lemma AtLeast(v: real, p: nat)
    requires p > 0 && v * 1152921504606846976.0 >= 129.0 * p as real
    ensures v / p as real >= 129.0 * SPACING / 256.0
  {
    assert v / p as real * p as real == v;
  }

  lemma OverOne(ds: Octets)
    requires AllDigits(ds) && |ds| <= 18 && Value(ds) * BITS > Pow10(|ds|)
    ensures Plus(1.0, Fraction(ds)).Num? && Plus(1.0, Fraction(ds)).value > 1.0
  {
    var v, p := Value(ds), Pow10(|ds|);
    ShortIsReading(1.0, ds);
    ShortFraction(ds);
    ShortPowers(|ds|);
    WellOver(v, p);
    DivisorExactly(|ds|);
    ReadsWell(v, p);
    ReadsOverOne(ReadFraction(ds));
  }

  lemma ReadsWell(v: nat, p: nat)
    requires 0 < p <= MAX_INT64 && v * 0x1000_0000_0000_0000 >= 129 * p
    ensures Round(v as real) / p as real >= 129.0 * SPACING / 256.0
  {
    if v <= BITS {
      IntIsFloat(v);
      FloatIsExact(v as real);
    } else {
      IntIsFloat(BITS);
      RoundAtLeast(BITS as real, v as real);
    }
    AtLeast(Round(v as real), p);
  }

  /** A weight of at most 18 digits is over 1 exactly when it starts with 1 and its fraction
      is more than half the spacing of the floats there, 2^-53. Up to 15 digits that is any
      fraction but 0; and then the weight is below 2. */
  lemma OverOneExactly(ds: Octets)
    requires AllDigits(ds) && |ds| <= 18
    ensures var w := Plus(1.0, Fraction(ds));
            w.Num? && 1.0 <= w.value <= 2.0 && (w.value > 1.0 <==> Value(ds) * BITS > Pow10(|ds|))
    ensures Plus(0.0, Fraction(ds)).Num? && 0.0 <= Plus(0.0, Fraction(ds)).value <= 1.0
    ensures |ds| <= 15 ==> Plus(1.0, Fraction(ds)).value < 2.0
                           && (Value(ds) * BITS > Pow10(|ds|) <==> !AllZeros(ds))
  {
    ShortIsReading(1.0, ds);
    ShortIsReading(0.0, ds);
    ShortFraction(ds);
    ReadingBounds(1.0, ReadFraction(ds));
    ReadingBounds(0.0, ReadFraction(ds));
    if Value(ds) * BITS <= Pow10(|ds|) { NotOverOne(ds); } else { OverOne(ds); }
    if |ds| <= 15 { FifteenDigits(ds); }
  }

  lemma FifteenDigits(ds: Octets)
    requires AllDigits(ds) && |ds| <= 15
    ensures Plus(1.0, Fraction(ds)).Num? && Plus(1.0, Fraction(ds)).value < 2.0
    ensures Value(ds) * BITS > Pow10(|ds|) <==> !AllZeros(ds)
  {
    ValueIsZero(ds);
    PowMonotone(|ds|, 15);
    Pow15();
    ReadClosely(1.0, ds);
    BelowTwo(ds);
  }

  lemma BelowTwo(ds: Octets)
    requires AllDigits(ds) && |ds| <= 15
    ensures Written(1.0, ds) <= 2.0 - 0.000000000000001
  {
    ValueBound(ds);
    var n := InUnits(1, ds);
    UnitRange(Value(ds) as real, Pow10(|ds|) as real);
    assert n < 2_000_000_000_000_000;
  }

  // ---------- and no further ----------

  ghost predicate AllCompare(k: nat) {
    forall whole1: real, ds1: Octets, whole2: real, ds2: Octets ::
      IsWhole(whole1) && IsWhole(whole2) && AllDigits(ds1) && AllDigits(ds2) && |ds1| <= k && |ds2| <= k
      ==> Compares(whole1, ds1, whole2, ds2)
  }

  lemma AllShortCompare(k: nat)
    requires k <= 15
    ensures AllCompare(k)
  {
    forall whole1: real, ds1: Octets, whole2: real, ds2: Octets
      | IsWhole(whole1) && IsWhole(whole2) && AllDigits(ds1) && AllDigits(ds2) && |ds1| <= k && |ds2| <= k
      ensures Compares(whole1, ds1, whole2, ds2)
    {
      ShortCompare(whole1, ds1, whole2, ds2);
    }
  }

  lemma SixteenDoNot(ds: Octets)
    requires AllDigits(ds) && |ds| == 16 && Value(ds) == 1
    ensures !Compares(1.0, [], 1.0, ds)
  {
    SixteenDigits(ds);
    NoDigits();
  }

  /** All weights of up to k digits compare as they are written exactly when k is at most
      15: 1.0000000000000001 is read as 1. */
  lemma AllCompareExactly(k: nat)
    ensures AllCompare(k) <==> k <= 15
  {
    if k <= 15 {
      AllShortCompare(k);
    } else {
      PowMonotone(1, 16);
      DecimalWrites(1, 16);
      SixteenDoNot(Decimal(1, 16));
    }
  }

  lemma FractionSign(v: nat, p: nat)
    requires p > 0
    ensures v as real / p as real >= 0.0 && (v as real / p as real == 0.0 <==> v == 0)
  {
  }

  lemma SixteenDigits(ds: Octets)
    requires AllDigits(ds) && |ds| == 16 && Value(ds) == 1
    ensures Plus(1.0, Fraction(ds)) == Num(1.0) && Written(1.0, ds) > 1.0
  {
    Pow15();
    PowSum(1, 15);
    NotOverOne(ds);
    FractionSign(Value(ds), Pow10(|ds|));
  }

  lemma NoDigits()
    ensures Plus(1.0, Fraction([])) == Num(1.0) && Written(1.0, []) == 1.0
  {
    NotOverOne([]);
  }

  // ---------- weights turned away ----------

  predicate IsInt64(n: int) {
    -MAX_INT64 - 1 <= n <= MAX_INT64
  }

  const LARGEST := 9223372036854775808.0    // 2^63

  lemma Largest()
    ensures IsFloat(LARGEST) && IsFloat(-LARGEST)
    ensures IsFloat(1.0 / LARGEST) && IsFloat(-1.0 / LARGEST)
  {
    Powers();
    MultipleIsFloat(1, 63);
    MultipleIsFloat(-1, 63);
    FractionIsFloat(1, 63);
    FractionIsFloat(-1, 63);
  }

  lemma RoundInt64(n: int)
    requires IsInt64(n)
    ensures -LARGEST <= Round(n as real) <= LARGEST
  {
    Largest();
    RoundBetween(-LARGEST, n as real, LARGEST);
  }

  lemma PositiveQuotient(a: real, b: real)
    requires a >= 1.0 && 0.0 < b <= LARGEST
    ensures a / b >= 1.0 / LARGEST
  {
    var q, least := a / b, 1.0 / LARGEST;
    assert q * b == a && least * b <= 1.0;
    SameFactor(least, q, b);
  }

  lemma SameFactor(x: real, y: real, b: real)
    requires b > 0.0 && x * b <= y * b
    ensures x <= y
  {
  }

  lemma NegatedQuotient(a: real, b: real)
    requires b != 0.0
    ensures a / b == -((-a) / b) && a / b == -(a / -b)
  {
  }

  lemma QuotientSize(a: real, b: real)
    requires b != 0.0 && -LARGEST <= b <= LARGEST
    ensures (a >= 1.0 && b > 0.0) || (a <= -1.0 && b < 0.0) ==> a / b >= 1.0 / LARGEST
    ensures (a <= -1.0 && b > 0.0) || (a >= 1.0 && b < 0.0) ==> a / b <= -1.0 / LARGEST
    ensures a == 0.0 ==> a / b == 0.0
  {
    NegatedQuotient(a, b);
    if a >= 1.0 || a <= -1.0 {
      PositiveQuotient(if a >= 1.0 then a else -a, if b > 0.0 then b else -b);
      if b < 0.0 { NegatedQuotient(-a, b); }
    }
  }

  lemma RoundQuotient(a: real, b: real)
    requires b != 0.0 && -LARGEST <= b <= LARGEST && (a >= 1.0 || a == 0.0 || a <= -1.0)
    ensures Round(a / b) < 0.0 <==> a < 0.0 < b || b < 0.0 < a
  {
    QuotientSize(a, b);
    Largest();
    if a < 0.0 < b || b < 0.0 < a {
      RoundAtMost(a / b, -1.0 / LARGEST);
    } else {
      RoundSign(a / b);
    }
  }

  /** A quotient of ints keeps its sign. */
  lemma RatioSign(n: int, d: int)
    requires IsInt64(n) && IsInt64(d) && d != 0
    ensures IsNegative(Plus(0.0, Ratio(n, d))) <==> n < 0 < d || d < 0 < n
  {
    RoundInt(n);
    RoundInt(d);
    RoundInt64(d);
    RoundQuotient(Round(n as real), Round(d as real));
    var q := Round(Round(n as real) / Round(d as real));
    RoundIsFloat(Round(n as real) / Round(d as real));
    FloatIsExact(q);
    assert 0.0 + q == q;
  }

  const OVER := SPACING / 2.0 + SPACING / 64.0

  lemma NegativeIs(whole: real, n: int, d: int, a: real, b: real)
    requires d != 0 && b != 0.0 && Round(n as real) == a && Round(d as real) == b
    ensures IsNegative(Plus(whole, Ratio(n, d))) <==> Round(whole + Round(a / b)) < 0.0
  {
  }

  /** 1 + q, for a quotient q: it comes out negative when q is some way below -1. */
  lemma OnePlus(q: real)
    ensures q >= -1.0 ==> Round(1.0 + Round(q)) >= 0.0
    ensures q <= -1.0 - OVER ==> Round(1.0 + Round(q)) < 0.0
  {
    SmallInts();
    if q >= -1.0 {
      RoundAtLeast(-1.0, q);
      RoundSign(1.0 + Round(q));
    } else if q <= -1.0 - OVER {
      BelowMinusOne(q);
      HalfSpacing(52);
      RoundAtMost(1.0 + Round(q), -SPACING);
    }
  }

  lemma BelowMinusOne(q: real)
    requires q <= -1.0 - OVER
    ensures Round(q) <= -1.0 - SPACING
  {
    RoundNearOne(1.0 + OVER);
    RoundOdd(1.0 + OVER);
    RoundMonotone(q, -(1.0 + OVER));
  }

  const NINETEEN := 8446744073709551616    // 2^64 - 10^19

  lemma NineteenIsFloat()
    ensures IsFloat(NINETEEN as real) && IsFloat((-NINETEEN) as real)
  {
    Powers();
    MultipleIsFloat(16110885760707, 19);
    MultipleIsFloat(-16110885760707, 19);
  }

  lemma AroundNineteen(v: nat)
    requires v <= MAX_INT64
    ensures v <= NINETEEN + 512 ==> Round(v as real) <= NINETEEN as real
    ensures v > NINETEEN + 512 ==> Round(v as real) >= (NINETEEN + 1024) as real
  {
    if v <= NINETEEN + 512 {
      RoundLarge(NINETEEN + 512, NINETEEN / 1024, 10);
      RoundMonotone(v as real, (NINETEEN + 512) as real);
    } else {
      RoundLarge(NINETEEN + 513, NINETEEN / 1024 + 1, 10);
      RoundMonotone((NINETEEN + 513) as real, v as real);
    }
  }

  lemma TimesDivisor(a: real, b: real, q: real)
    requires b != 0.0 && q == a / b
    ensures q * b == a
  {
  }

  lemma OverNineteen(a: real, b: real, q: real)
    requires a >= 0.0 && b == -8446744073709551616.0 && q == a / b
    ensures a <= 8446744073709551616.0 ==> q >= -1.0
    ensures a >= 8446744073709552640.0 ==> q <= -1.0 - OVER
  {
    TimesDivisor(a, b, q);
    assert q * -8446744073709551616.0 == a;
  }

  lemma LeadingQuotient(a: real, b: real, q: real)
    requires b == -8446744073709551616.0 && q == a / b
    requires 0.0 <= a <= 8446744073709551616.0 || a >= 8446744073709552640.0
    ensures Round(1.0 + Round(q)) < 0.0 <==> a > 8446744073709551616.0
  {
    OverNineteen(a, b, q);
    OnePlus(q);
  }

  lemma NineteenDivides()
    ensures Round((-NINETEEN) as real) == -8446744073709551616.0
  {
    NineteenIsFloat();
    FloatIsExact((-NINETEEN) as real);
  }

  /** a is the int v in float64. */
  lemma LeadingInt(v: nat, a: real)
    requires v <= MAX_INT64 && a == Round(v as real)
    ensures 0.0 <= a <= 8446744073709551616.0 || a >= 8446744073709552640.0
    ensures a > 8446744073709551616.0 <==> v > NINETEEN + 512
  {
    RoundInt(v);
    AroundNineteen(v);
  }

  lemma LeadingOneAt(v: nat, a: real, b: real, q: real)
    requires b == Round((-NINETEEN) as real) && b == -8446744073709551616.0
    requires v <= MAX_INT64 && a == Round(v as real) && q == a / b
    ensures IsNegative(Plus(1.0, Ratio(v, -NINETEEN))) <==> v > NINETEEN + 512
  {
    NegativeIs(1.0, v, -NINETEEN, a, b);
    LeadingInt(v, a);
    LeadingQuotient(a, b, q);
  }

  lemma LeadingOne(v: nat)
    requires v <= MAX_INT64
    ensures IsNegative(Plus(1.0, Ratio(v, -NINETEEN))) <==> v > NINETEEN + 512
  {
    var a, b := Round(v as real), Round((-NINETEEN) as real);
    NineteenDivides();
    LeadingOneAt(v, a, b, a / b);
  }

  lemma NotNegativeQuotient(a: real, b: real)
    requires b != 0.0 && -LARGEST <= b <= LARGEST
    requires a == 0.0 || (a >= 1.0 && b > 0.0) || (a <= -1.0 && b < 0.0)
    ensures Round(1.0 + Round(a / b)) >= 0.0
  {
    QuotientSize(a, b);
    OnePlus(a / b);
  }

  lemma NotNegative(n: int, d: int)
    requires IsInt64(n) && IsInt64(d) && d != 0 && !(n < 0 < d) && !(d < 0 < n)
    ensures !IsNegative(Plus(1.0, Ratio(n, d)))
  {
    RoundInt(n);
    RoundInt(d);
    RoundInt64(d);
    var a, b := Round(n as real), Round(d as real);
    NegativeIs(1.0, n, d, a, b);
    NotNegativeQuotient(a, b);
  }

  /** The shortest weights that are turned away: which ones of 19 digits are. After a 1 the
      first 512 of those that are over the divisor still round to it. */
  lemma NineteenDigits(whole: real, ds: Octets)
    requires IsWhole(whole) && AllDigits(ds) && |ds| == 19
    ensures ToInt64(Pow10(19)) == -NINETEEN
    ensures IsNegative(Plus(whole, Fraction(ds)))
        <==> (if whole == 0.0 then 0 else NINETEEN + 512) < Value(ds) <= MAX_INT64
  {
    ValueBound(ds);
    Pow18And19();
    NineteenWraps(Value(ds));
    NineteenTurnedAway(whole, ToInt64(Value(ds)));
    assert Fraction(ds) == Ratio(ToInt64(Value(ds)), -NINETEEN);
  }

  lemma NineteenWraps(v: nat)
    requires v < 10_000_000_000_000_000_000
    ensures ToInt64(10_000_000_000_000_000_000) == -NINETEEN
    ensures ToInt64(v) == if v <= MAX_INT64 then v else v - TWO_TO_64
  {
  }

  lemma NineteenTurnedAway(whole: real, n: int)
    requires IsWhole(whole) && IsInt64(n)
    ensures IsNegative(Plus(whole, Ratio(n, -NINETEEN))) <==> n > if whole == 0.0 then 0 else NINETEEN + 512
  {
    if whole == 0.0 {
      RatioSign(n, -NINETEEN);
    } else if n >= 0 {
      LeadingOne(n);
    } else {
      NotNegative(n, -NINETEEN);
    }
  }

  // ---------- at which lengths ----------

  ghost predicate AllAccepted(whole: real, k: nat) {
    forall ds: Octets :: AllDigits(ds) && |ds| == k ==> !IsNegative(Plus(whole, Fraction(ds)))
  }

  /** Digits that leave the number v in the first accumulator. */
  lemma DigitsFor(v: nat, k: nat) returns (ds: Octets)
    requires v <= MAX_INT64 + 1 && k >= 19
    ensures AllDigits(ds) && |ds| == k && Value(ds) == v
  {
    Pow18And19();
    PowMonotone(19, k);
    ds := Decimal(v, k);
    DecimalWrites(v, k);
  }

  /** From 19 digits on the divisor is a multiple of 2^19. */
  lemma DivisorSteps(k: nat) returns (t: int)
    requires k >= 19 && ToInt64(Pow10(k)) != -MAX_INT64 - 1
    ensures ToInt64(Pow10(k)) == t * 0x8_0000 && -0x1000_0000_0000 < t < 0x1000_0000_0000
  {
    Powers();
    var m := Divided(19, k);
    var j := Wrapped(Pow10(k));
    t := m - j * (TWO_TO_64 / 0x8_0000);
  }

  /** The ends of the int range over such a divisor. */
  lemma EndOverDivisor(t: int, d: int)
    requires d == t * 0x8_0000 && -0x1000_0000_0000 < t < 0x1000_0000_0000 && t != 0
    ensures IsNegative(Plus(1.0, Ratio(if d > 0 then -MAX_INT64 - 1 else MAX_INT64, d)))
  {
    var n, a := if d > 0 then -MAX_INT64 - 1 else MAX_INT64, if d > 0 then -LARGEST else LARGEST;
    Powers();
    MultipleIsFloat(t, 19);
    FloatIsExact(d as real);
    Ends();
    NegativeIs(1.0, n, d, a, d as real);
    EndQuotient(d);
    OnePlus(a / d as real);
  }

  lemma Ends()
    ensures Round(MAX_INT64 as real) == LARGEST && Round((-MAX_INT64 - 1) as real) == -LARGEST
  {
    RoundLarge(MAX_INT64, BITS, 10);
    Largest();
    FloatIsExact(-LARGEST);
  }

  lemma EndQuotient(d: int)
    requires d != 0 && -MAX_INT64 + 0x7_ffff <= d <= MAX_INT64 - 0x7_ffff
    ensures (if d > 0 then -LARGEST else LARGEST) / d as real <= -1.0 - OVER
  {
    var e := if d > 0 then -LARGEST else LARGEST;
    var q := e / d as real;
    assert q * d as real == e;
  }

  lemma RejectedDigits(whole: real, k: nat) returns (ds: Octets)
    requires IsWhole(whole) && k >= 19 && !(whole == 1.0 && k == 63)
    ensures AllDigits(ds) && |ds| == k && IsNegative(Plus(whole, Fraction(ds)))
  {
    var d := ToInt64(Pow10(k));
    DivisorIsLeast(k);
    WrapShift(-MAX_INT64 - 1, 1);
    ds := DigitsFor(if d >= 0 then MAX_INT64 + 1 else MAX_INT64, k);
    if d != 0 {
      if whole == 0.0 {
        RatioSign(ToInt64(Value(ds)), d);
      } else {
        var t := DivisorSteps(k);
        EndOverDivisor(t, d);
      }
    }
  }

  lemma SixtyThreeDigits(n: int)
    requires IsInt64(n)
    ensures !IsNegative(Plus(1.0, Ratio(n, -MAX_INT64 - 1)))
  {
    var a := Round(n as real);
    Ends();
    RoundInt64(n);
    NegativeIs(1.0, n, -MAX_INT64 - 1, a, -LARGEST);
    OverLargest(a, a / -LARGEST);
  }

  lemma OverLargest(a: real, q: real)
    requires -LARGEST <= a <= LARGEST && q == a / -LARGEST
    ensures Round(1.0 + Round(q)) >= 0.0
  {
    assert q >= -1.0;
    OnePlus(q);
  }

  lemma ShortAccepted(whole: real, ds: Octets)
    requires IsWhole(whole) && AllDigits(ds) && |ds| <= 18
    ensures Plus(whole, Fraction(ds)).Num? && !IsNegative(Plus(whole, Fraction(ds)))
  {
    ShortIsReading(whole, ds);
    ShortFraction(ds);
    ReadingBounds(whole, ReadFraction(ds));
  }

  /** No weight of k digits is turned away exactly when k is at most 18, or when it is 63
      and the weight starts with 1. */
  lemma AcceptedExactly(whole: real, k: nat)
    requires IsWhole(whole)
    ensures AllAccepted(whole, k) <==> k <= 18 || (whole == 1.0 && k == 63)
  {
    if k <= 18 {
      forall ds: Octets | AllDigits(ds) && |ds| == k ensures !IsNegative(Plus(whole, Fraction(ds))) {
        ShortAccepted(whole, ds);
      }
    } else if whole == 1.0 && k == 63 {
      DivisorIsLeast(k);
      forall ds: Octets | AllDigits(ds) && |ds| == k ensures !IsNegative(Plus(whole, Fraction(ds))) {
        SixtyThreeDigits(ToInt64(Value(ds)));
      }
    } else {
      var ds := RejectedDigits(whole, k);
    }
  }

  // ---------- weights as they stand in a header ----------

  /** The digits after the point of a weight that has one. */
  function PointDigits(s: Octets): (ds: Octets)
    ensures AllDigits(ds)
  {
    if |s| >= 2 && s[1] == '.' then Digits(s[2..]).0 else []
  }

  /** No digits, no fraction. */
  lemma NoFraction(whole: real, x: real)
    requires IsWhole(whole) && x == 0.0
    ensures Reading(whole, x) == whole
  {
    RoundZero(x);
    SmallInts();
    FloatIsExact(whole);
  }

  lemma PointedQuality(s: Octets)
    requires Quality(s).Some? && |s| >= 2 && s[1] == '.'
    ensures s[0] == '0' || s[0] == '1'
    ensures Quality(s).value.0 == Plus(if s[0] == '0' then 0.0 else 1.0, Fraction(PointDigits(s)))
  {
  }

  /** A weight over 1 is accepted. One of at most 18 digits is over 1 exactly when it starts
      with 1 and its fraction is over 2^-53: of at most 15 digits, when it has a digit that
      is not 0. */
  lemma QualityOverOne(s: Octets)
    requires Quality(s).Some? && |PointDigits(s)| <= 18
    ensures var w, ds := Quality(s).value.0, PointDigits(s);
            w.Num? && 0.0 <= w.value <= 2.0
            && (w.value > 1.0 <==> s[0] == '1' && Value(ds) * BITS > Pow10(|ds|))
            && (|ds| <= 15 ==> w.value < 2.0 && (w.value > 1.0 <==> s[0] == '1' && !AllZeros(ds)))
  {
    if |s| >= 2 && s[1] == '.' {
      PointedQuality(s);
      OverOneExactly(PointDigits(s));
    }
  }
}
