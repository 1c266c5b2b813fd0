/** What the int accumulators make of the digits of a weight, and when it becomes a NaN. */
module AcceptWeights {
  import opened Int64
  import opened AcceptHeader

  // ---------- decimal numbers ----------

  lemma Horner(d: nat, p: nat, v: nat, c: nat)
    ensures d * (10 * p) + (v * 10 + c) == (d * p + v) * 10 + c
  {
  }

  lemma {:induction false} ValueAppend(ds: Octets, c: octet)
    requires AllDigits(ds) && IsDigit(c)
    ensures Value(ds + [c]) == Value(ds) * 10 + Digit(c)
  {
    if ds != [] {
      ValueAppend(ds[1..], c);
      var all := ds + [c];
      assert all[1..] == ds[1..] + [c] && all[0] == ds[0];
      assert Value(all) == Digit(ds[0]) * Pow10(|ds|) + Value(ds[1..] + [c]);
      Horner(Digit(ds[0]), Pow10(|ds| - 1), Value(ds[1..]), Digit(c));
    }
  }

  lemma TopDigit(d: nat, p: nat)
    requires d <= 9
    ensures 0 <= d * p <= 9 * p && (d > 0 ==> d * p >= p)
  {
  }

  lemma {:induction false} ValueBound(ds: Octets)
    requires AllDigits(ds)
    ensures Value(ds) < Pow10(|ds|)
  {
    if ds != [] {
      ValueBound(ds[1..]);
      TopDigit(Digit(ds[0]), Pow10(|ds| - 1));
    }
  }

  predicate AllZeros(ds: Octets) {
    forall i :: 0 <= i < |ds| ==> ds[i] == '0'
  }

  lemma {:induction false} ValueIsZero(ds: Octets)
    requires AllDigits(ds)
    ensures Value(ds) == 0 <==> AllZeros(ds)
  {
    if ds != [] {
      ValueIsZero(ds[1..]);
      TopDigit(Digit(ds[0]), Pow10(|ds| - 1));
      assert AllZeros(ds) <==> ds[0] == '0' && AllZeros(ds[1..]) by {
        assert ds == [ds[0]] + ds[1..];
      }
    }
  }

  /** The k digits that write v. */
  function Decimal(v: nat, k: nat): (ds: Octets)
    ensures |ds| == k && AllDigits(ds)
  {
    if k == 0 then [] else Decimal(v / 10, k - 1) + [('0' as int + v % 10) as char]
  }

  lemma {:induction false} DecimalWrites(v: nat, k: nat)
    requires v < Pow10(k)
    ensures Value(Decimal(v, k)) == v
  {
    if k > 0 {
      DecimalWrites(v / 10, k - 1);
      ValueAppend(Decimal(v / 10, k - 1), ('0' as int + v % 10) as char);
    }
  }

  lemma {:induction false} PowMonotone(a: nat, b: nat)
    requires a <= b
    ensures Pow10(a) <= Pow10(b)
    decreases b
  {
    if a < b { PowMonotone(a, b - 1); }
  }

  lemma {:induction false} PowSum(a: nat, b: nat)
    ensures Pow10(a + b) == Pow10(a) * Pow10(b)
  {
    if a > 0 { PowSum(a - 1, b); }
  }

  lemma Pow18And19()
    ensures Pow10(18) == 1_000_000_000_000_000_000
    ensures Pow10(19) == 10_000_000_000_000_000_000
  {
    assert Pow10(6) == 1_000_000;
    PowSum(6, 6);
    PowSum(12, 6);
  }

  // ---------- the divisor ----------

  /** The power of ten fits an int exactly up to 18 digits. */
  lemma DivisorExactly(k: nat)
    ensures ToInt64(Pow10(k)) == Pow10(k) <==> k <= 18
    ensures Pow10(k) <= MAX_INT64 <==> k <= 18
  {
    Pow18And19();
    if k <= 18 { PowMonotone(k, 18); } else { PowMonotone(19, k); }
  }

  lemma TenTimes(o: nat, p: nat)
    ensures 10 * (o * p) == (5 * o) * (2 * p)
  {
    Product(5 * o, 2, p);
    assert (5 * o) * 2 == 10 * o;
    Product(10, o, p);
  }

  function Pow5(k: nat): (p: nat)
    ensures p >= 1 && p % 2 == 1
  {
    if k == 0 then 1
    else
      var p := Pow5(k - 1);
      assert 5 * p == 2 * (5 * (p / 2) + 2) + 1;
      5 * p
  }

  /** 10^k as 2^k times an odd number. */
  lemma {:induction false} OddPart(k: nat)
    ensures Pow10(k) == Pow5(k) * Pow2(k)
  {
    if k > 0 {
      OddPart(k - 1);
      TenTimes(Pow5(k - 1), Pow2(k - 1));
    }
  }

  lemma Pow2Of64()
    ensures Pow2(64) == TWO_TO_64
  {
    assert Pow2(8) == 256;
    Pow2Sum(8, 8);
    assert Pow2(16) == 0x1_0000;
    Pow2Sum(16, 16);
    assert Pow2(32) == 0x1_0000_0000;
    Pow2Sum(32, 32);
  }

  lemma Cancel(a: int, b: int, p: nat)
    requires p >= 1 && a * p == b * p
    ensures a == b
  {
  }

  lemma Rearrange(m: int, j: nat, p: nat)
    ensures m * ((2 * j) * p) == (2 * (m * j)) * p
  {
  }

  /** No higher power of two than 2^k divides 10^k. */
  lemma Divides(m: int, j: nat, k: nat)
    requires m * Pow2(j) == Pow10(k)
    ensures j <= k
  {
    if j > k {
      var odd := Pow5(k);
    OddPart(k);
      Pow2Sum(j - k, k);
      Rearrange(m, Pow2(j - k - 1), Pow2(k));
      Cancel(odd, 2 * (m * Pow2(j - k - 1)), Pow2(k));
      assert false;
    }
  }

  lemma Product(a: int, b: int, c: int)
    ensures a * (b * c) == (a * b) * c
  {
  }

  lemma Divided(j: nat, k: nat) returns (m: nat)
    requires j <= k
    ensures m * Pow2(j) == Pow10(k)
    ensures j == k ==> m % 2 == 1
  {
    var odd := Pow5(k);
    OddPart(k);
    Pow2Sum(k - j, j);
    m := odd * Pow2(k - j);
    Product(odd, Pow2(k - j), Pow2(j));
    if j == k { assert m == odd; }
  }

  /** The divisor becomes 0 exactly from 64 digits on. */
  lemma DivisorVanishes(k: nat)
    ensures ToInt64(Pow10(k)) == 0 <==> k >= 64
  {
    WrapsToZero(Pow10(k));
    Pow2Of64();
    if k >= 64 {
      var m := Divided(64, k);
      assert Pow10(k) == m * TWO_TO_64;
    } else if Pow10(k) % TWO_TO_64 == 0 {
      Divides(Pow10(k) / TWO_TO_64, 64, k);
    }
  }

  lemma OddMultiple(x: nat, m: int)
    requires x == m * (MAX_INT64 + 1)
    ensures m % 2 == 1 ==> ToInt64(x) == -MAX_INT64 - 1
  {
    if m % 2 == 1 {
      assert x == MAX_INT64 + 1 + (m / 2) * TWO_TO_64;
      WrapShift(MAX_INT64 + 1, m / 2);
    }
  }

  lemma Pow2Of63()
    ensures Pow2(63) == MAX_INT64 + 1
  {
    Pow2Of64();
    Pow2Sum(1, 63);
  }

  /** It is the least int exactly at 63. */
  lemma DivisorIsLeast(k: nat)
    ensures ToInt64(Pow10(k)) == -MAX_INT64 - 1 <==> k == 63
  {
    Pow2Of63();
    DivisorVanishes(k);
    if k == 63 {
      var m := Divided(63, k);
      OddMultiple(Pow10(k), m);
    } else if ToInt64(Pow10(k)) == -MAX_INT64 - 1 {
      var j := Wrapped(Pow10(k));
      OddHalf(Pow10(k), j);
      Divides(2 * j - 1, 63, k);
    }
  }

  lemma OddHalf(x: int, j: int)
    requires x == -MAX_INT64 - 1 + j * TWO_TO_64
    ensures x == (2 * j - 1) * (MAX_INT64 + 1)
  {
  }

  // ---------- weights that are no number ----------

  /** A weight is a NaN exactly when it has at least 64 digits and they write a multiple of
      2^64, as 64 zeros do. */
  lemma NaNExactly(whole: real, ds: Octets)
    requires AllDigits(ds)
    ensures Plus(whole, Fraction(ds)) == NaN <==> |ds| >= 64 && Value(ds) % TWO_TO_64 == 0
  {
    DivisorVanishes(|ds|);
    WrapsToZero(Value(ds));
  }

  // ---------- weights as they stand in a header ----------

  /** No element of a parsed header has a negative weight, whatever its digits. */
  lemma {:induction false} LineWeights(s: Octets)
    ensures forall i :: 0 <= i < |Line(s)| ==> !IsNegative(Line(s)[i].q)
    decreases |s|
  {
    if Element(s).Some? {
      var s1 := SkipSpace(Element(s).value.1);
      if StartsWith(s1, ',') { LineWeights(SkipSpace(s1[1..])); }
    }
  }

  lemma {:induction false} HeaderWeights(lines: seq<Octets>)
    ensures forall i :: 0 <= i < |Header(lines)| ==> !IsNegative(Header(lines)[i].q)
  {
    if lines != [] {
      LineWeights(lines[0]);
      HeaderWeights(lines[1..]);
    }
  }
}
