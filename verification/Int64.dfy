/** Go's int on a 64-bit machine: an assignment keeps the value modulo 2^64. */
module Int64 {
  const MAX_INT64 := 0x7FFF_FFFF_FFFF_FFFF
  const TWO_TO_64 := 0x1_0000_0000_0000_0000

  /** The value an int64 variable holds after being assigned x. */
  function ToInt64(x: int): (r: int)
    ensures -MAX_INT64 - 1 <= r <= MAX_INT64
    ensures -MAX_INT64 - 1 <= x <= MAX_INT64 ==> r == x
  {
    (x + MAX_INT64 + 1) % TWO_TO_64 - MAX_INT64 - 1
  }

  function Pow2(k: nat): (p: nat)
    ensures p >= 1
  {
    if k == 0 then 1 else 2 * Pow2(k - 1)
  }

  lemma {:induction false} Pow2Sum(a: nat, b: nat)
    ensures Pow2(a + b) == Pow2(a) * Pow2(b)
  {
    if a > 0 { Pow2Sum(a - 1, b); }
  }

  lemma WrapShift(x: int, k: int)
    ensures ToInt64(x + k * TWO_TO_64) == ToInt64(x)
  {
    var y := x + MAX_INT64 + 1;
    assert (y + k * TWO_TO_64) % TWO_TO_64 == y % TWO_TO_64;
  }

  /** An int64 differs from the number assigned to it by a multiple of 2^64. */
  lemma Wrapped(x: int) returns (k: int)
    ensures x == ToInt64(x) + k * TWO_TO_64
  {
    k := (x + MAX_INT64 + 1) / TWO_TO_64;
  }

  /** Wrapping in the middle of a computation changes nothing. */
  lemma WrapStep(a: int, m: int, c: int)
    ensures ToInt64(ToInt64(a) * m + c) == ToInt64(a * m + c)
  {
    var k := Wrapped(a);
    assert a * m + c == ToInt64(a) * m + c + (k * m) * TWO_TO_64 by {
      assert (k * TWO_TO_64) * m == (k * m) * TWO_TO_64;
      assert (ToInt64(a) + k * TWO_TO_64) * m == ToInt64(a) * m + (k * TWO_TO_64) * m;
    }
    WrapShift(ToInt64(a) * m + c, k * m);
  }

  /** An int64 is 0 exactly when the number assigned to it is a multiple of 2^64. */
  lemma WrapsToZero(x: int)
    ensures ToInt64(x) == 0 <==> x % TWO_TO_64 == 0
  {
  }
}
