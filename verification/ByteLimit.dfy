/** server/middleware limitWrite: the byte budget kept across the writes of a response. */
module ByteLimit {
  import opened Int64
  import opened Wrappers

  type byte = x: int | 0 <= x < 256

  datatype WriteError = NoError | TooManyBytes | Failed

  /** The wrapped writer's answer to a buffer: how many bytes it took, and whether it
      reports an error. */
  type Writer = seq<byte> -> (nat, bool)

  ghost predicate Honest(w: Writer) {
    forall b :: w(b).0 <= |b|
  }

  datatype Call = Call(b: seq<byte>, w: Writer)

  function Min(a: int, b: int): int {
    if a <= b then a else b
  }

  // ---------- one write ----------

  /** The number of bytes the code hands on out of n, as it computes it. When it is
      negative the re-slice of the buffer is out of bounds and the code panics. */
  function HandedOn(limit: int, size: int, n: nat): int {
    var total := ToInt64(size + n);
    if total > limit then n - (total - limit) else n
  }

  /** The re-slice is out of bounds exactly when more than the limit was counted before
      and the total does not wrap. */
  lemma InBoundsExactly(limit: int, size: int, n: nat)
    requires 0 < limit <= MAX_INT64 && -MAX_INT64 - 1 <= size <= MAX_INT64 && n <= MAX_INT64
    ensures 0 <= HandedOn(limit, size, n) <= n <==> size <= limit || size + n > MAX_INT64
  {
    if size + n > MAX_INT64 {
      assert ToInt64(size + n) == size + n - TWO_TO_64;
    }
  }

  /** While the budget holds, a write hands on what still fits, exactly when its total
      does not wrap; when it wraps, the whole buffer. */
  lemma HandedOnFits(limit: int, size: int, n: nat)
    requires 0 < limit <= MAX_INT64 && 0 <= size <= limit && n <= MAX_INT64
    ensures HandedOn(limit, size, n) == if size + n <= MAX_INT64 then Min(n, limit - size) else n
    ensures size + HandedOn(limit, size, n) <= limit <==> size + n <= MAX_INT64
  {
    if size + n > MAX_INT64 {
      assert ToInt64(size + n) == size + n - TWO_TO_64;
    }
  }

  /** What the wrapped writer has taken in all once one more call was made; None when the
      code panics instead. */
  function Forward(limit: int, taken: seq<byte>, c: Call): Option<seq<byte>>
    requires 0 < limit <= MAX_INT64 && |c.b| <= MAX_INT64
  {
    var k := HandedOn(limit, ToInt64(|taken|), |c.b|);
    if 0 <= k <= |c.b| && c.w(c.b[..k]).0 <= k then Some(taken + c.b[..c.w(c.b[..k]).0]) else None
  }

  class LimitedWriter {
    const limit: int
    var size: int
    var taken: seq<byte>
    var serverError: bool

    ghost predicate Valid() reads this {
      0 < limit <= MAX_INT64 && size == ToInt64(|taken|)
    }

    constructor (limit: int)
      requires 0 < limit <= MAX_INT64
      ensures Valid() && this.limit == limit && taken == [] && !serverError
    {
      this.limit, size, taken, serverError := limit, 0, [], false;
    }

    /** |b| is at most the largest int, as the length of every Go slice is. */
    method Write(b: seq<byte>, w: Writer) returns (n: nat, err: WriteError, panicked: bool)
      requires Valid() && Honest(w) && |b| <= MAX_INT64
      modifies this
      ensures Valid()
      ensures panicked <==> old(size) > limit && old(size) + |b| <= MAX_INT64
      ensures panicked <==> Forward(limit, old(taken), Call(b, w)) == None
      ensures panicked ==> taken == old(taken)
      ensures !panicked ==> Forward(limit, old(taken), Call(b, w)) == Some(taken) && |taken| == old(|taken|) + n
      ensures var over := ToInt64(old(size) + |b|) > limit;
              serverError == (old(serverError) || over)
              && (!panicked ==> err == if w(b[..HandedOn(limit, old(size), |b|)]).1 then Failed
                                       else if over then TooManyBytes else NoError)
    {
      InBoundsExactly(limit, size, |b|);
      ghost var k := HandedOn(limit, size, |b|);
      var out := b;
      n, err, panicked := 0, NoError, false;
      var total := ToInt64(size + |b|);
      if total > limit {
        var diff := total - limit;
        err := TooManyBytes;
        serverError := true;
        if |b| - diff < 0 {
          panicked := true;
          return;
        }
        out := b[..|b| - diff];
      }
      assert 0 <= k <= |b| && out == b[..k];
      var (m, failed) := w(out);
      n := m;
      assert n <= k && out[..n] == b[..n];
      WrapStep(|taken|, 1, n);
      taken := taken + out[..n];
      size := ToInt64(size + n);
      if failed {
        err := Failed;
      }
    }
  }

  // ---------- whole responses ----------

  ghost predicate Plausible(calls: seq<Call>) {
    forall i :: 0 <= i < |calls| ==> Honest(calls[i].w) && |calls[i].b| <= MAX_INT64
  }

  /** Everything the wrapped writer has taken after a sequence of writes, None if one of
      them panicked. */
  ghost function Taken(limit: int, calls: seq<Call>): Option<seq<byte>>
    requires 0 < limit <= MAX_INT64 && Plausible(calls)
  {
    if calls == [] then Some([])
    else
      var front, last := Taken(limit, calls[..|calls| - 1]), calls[|calls| - 1];
      if front.None? then None else Forward(limit, front.value, last)
  }

  lemma OneMoreCall(limit: int, calls: seq<Call>, i: nat)
    requires 0 < limit <= MAX_INT64 && Plausible(calls) && i < |calls| && Plausible(calls[..i])
    ensures Plausible(calls[..i + 1])
    ensures var front := Taken(limit, calls[..i]);
            Taken(limit, calls[..i + 1]) == if front.None? then None else Forward(limit, front.value, calls[i])
  {
    assert calls[..i + 1][..i] == calls[..i];
    assert calls[..i + 1] == calls[..i] + [calls[i]];
  }

  /** A handler that makes these writes to a new limited writer, as the middleware sets it
      up, and stops where one panics. */
  method ServeHTTP(limit: int, calls: seq<Call>) returns (lw: LimitedWriter, panicked: bool)
    requires 0 < limit <= MAX_INT64 && Plausible(calls)
    ensures lw.Valid() && lw.limit == limit
    ensures Taken(limit, calls) == if panicked then None else Some(lw.taken)
  {
    lw := new LimitedWriter(limit);
    panicked := false;
    for i := 0 to |calls|
      invariant lw.Valid() && lw.limit == limit && fresh(lw)
      invariant Plausible(calls[..i])
      invariant Taken(limit, calls[..i]) == Some(lw.taken)
    {
      OneMoreCall(limit, calls, i);
      var n, err;
      n, err, panicked := lw.Write(calls[i].b, calls[i].w);
      if panicked {
        PanicStays(limit, calls, i + 1);
        return;
      }
    }
    assert calls[..|calls|] == calls;
  }

  lemma {:induction false} PanicStays(limit: int, calls: seq<Call>, i: nat)
    requires 0 < limit <= MAX_INT64 && Plausible(calls) && i <= |calls|
    requires Plausible(calls[..i]) && Taken(limit, calls[..i]) == None
    ensures Taken(limit, calls) == None
    decreases |calls| - i
  {
    if i == |calls| {
      assert calls[..i] == calls;
    } else {
      OneMoreCall(limit, calls, i);
      PanicStays(limit, calls, i + 1);
    }
  }

  /** What the wrapped writer takes of the writes of an unlimited response. */
  function Passed(calls: seq<Call>): seq<byte>
    requires forall i :: 0 <= i < |calls| ==> calls[i].w(calls[i].b).0 <= |calls[i].b|
  {
    if calls == [] then []
    else var last := calls[|calls| - 1]; Passed(calls[..|calls| - 1]) + last.b[..last.w(last.b).0]
  }

  /** The middleware: a limit of 0 or less is none, and every write goes through. */
  method LimitResponseBodyBytes(limit: int, calls: seq<Call>) returns (taken: seq<byte>, panicked: bool)
    requires limit <= MAX_INT64 && Plausible(calls)
    ensures limit > 0 ==> Taken(limit, calls) == if panicked then None else Some(taken)
    ensures limit <= 0 ==> !panicked && taken == Passed(calls)
    ensures limit <= 0 && (forall i, b :: 0 <= i < |calls| ==> calls[i].w(b).0 == |b|) ==> taken == Input(calls)
  {
    if limit > 0 {
      var lw;
      lw, panicked := ServeHTTP(limit, calls);
      return lw.taken, panicked;
    }
    taken, panicked := [], false;
    for i := 0 to |calls|
      invariant taken == Passed(calls[..i])
    {
      assert calls[..i + 1][..i] == calls[..i];
      var (n, _) := calls[i].w(calls[i].b);
      taken := taken + calls[i].b[..n];
    }
    assert calls[..|calls|] == calls;
    if forall i, b :: 0 <= i < |calls| ==> calls[i].w(b).0 == |b| { PassedWhole(calls); }
  }

  lemma {:induction false} PassedWhole(calls: seq<Call>)
    requires forall i, b :: 0 <= i < |calls| ==> calls[i].w(b).0 == |b|
    ensures Passed(calls) == Input(calls)
  {
    if calls != [] {
      var last := calls[|calls| - 1];
      PassedWhole(calls[..|calls| - 1]);
      assert last.w(last.b).0 == |last.b| && last.b[..|last.b|] == last.b;
    }
  }

  /** No write's total wraps: a condition on the lengths and on what was taken so far. */
  ghost predicate NoWrap(limit: int, calls: seq<Call>)
    requires 0 < limit <= MAX_INT64 && Plausible(calls)
  {
    calls != [] ==>
      var front, last := calls[..|calls| - 1], calls[|calls| - 1];
      NoWrap(limit, front)
      && (Taken(limit, front).Some? ==> |Taken(limit, front).value| + |last.b| <= MAX_INT64)
  }

  /** From within the budget, one more write stays within it exactly when its total does
      not wrap or the wrapped writer takes no more than was left. */
  lemma BudgetExactly(limit: int, taken: seq<byte>, c: Call)
    requires 0 < limit <= MAX_INT64 && |taken| <= limit && |c.b| <= MAX_INT64 && Honest(c.w)
    ensures Forward(limit, taken, c).Some?
    ensures |Forward(limit, taken, c).value| <= limit
        <==> |taken| + |c.b| <= MAX_INT64 || c.w(c.b).0 <= limit - |taken|
  {
    HandedOnFits(limit, |taken|, |c.b|);
    var k := HandedOn(limit, |taken|, |c.b|);
    assert c.w(c.b[..k]).0 <= |c.b[..k]|;
    assert c.b[..|c.b|] == c.b;
  }

  /** Over any writes to any writer: without a wrapped total nothing panics and no more
      than limit bytes are taken. */
  lemma {:induction false} WithinBudget(limit: int, calls: seq<Call>)
    requires 0 < limit <= MAX_INT64 && Plausible(calls) && NoWrap(limit, calls)
    ensures Taken(limit, calls).Some? && |Taken(limit, calls).value| <= limit
  {
    if calls != [] {
      var front := calls[..|calls| - 1];
      WithinBudget(limit, front);
      BudgetExactly(limit, Taken(limit, front).value, calls[|calls| - 1]);
    }
  }

  /** Call i wraps its total, and the wrapped writer takes more than was left. */
  ghost predicate Overruns(limit: int, calls: seq<Call>, i: nat)
    requires 0 < limit <= MAX_INT64 && Plausible(calls) && i < |calls|
  {
    var taken := Taken(limit, calls[..i]);
    taken.Some? && |taken.value| + |calls[i].b| > MAX_INT64
    && calls[i].w(calls[i].b).0 > limit - |taken.value|
  }

  ghost predicate WithinAt(limit: int, calls: seq<Call>, i: nat)
    requires 0 < limit <= MAX_INT64 && Plausible(calls) && i <= |calls|
  {
    var taken := Taken(limit, calls[..i]);
    taken.Some? && |taken.value| <= limit
  }

  lemma WithinNext(limit: int, calls: seq<Call>, i: nat)
    requires 0 < limit <= MAX_INT64 && Plausible(calls) && i < |calls| && WithinAt(limit, calls, i)
    ensures WithinAt(limit, calls, i + 1) <==> !Overruns(limit, calls, i)
  {
    assert calls[..i + 1][..i] == calls[..i];
    BudgetExactly(limit, Taken(limit, calls[..i]).value, calls[i]);
  }

  lemma {:induction false} WithinSoFar(limit: int, calls: seq<Call>, n: nat)
    requires 0 < limit <= MAX_INT64 && Plausible(calls) && n <= |calls|
    requires forall i :: 0 <= i < n ==> !Overruns(limit, calls, i)
    ensures WithinAt(limit, calls, n)
  {
    if n > 0 {
      WithinSoFar(limit, calls, n - 1);
      WithinNext(limit, calls, n - 1);
    }
  }

  /** A response keeps to its budget all along, and no write of it panics, exactly when no
      write overruns it so. */
  lemma BudgetAlways(limit: int, calls: seq<Call>)
    requires 0 < limit <= MAX_INT64 && Plausible(calls)
    ensures (forall i :: 0 <= i <= |calls| ==> WithinAt(limit, calls, i))
        <==> (forall i :: 0 <= i < |calls| ==> !Overruns(limit, calls, i))
  {
    if forall i :: 0 <= i < |calls| ==> !Overruns(limit, calls, i) {
      forall i | 0 <= i <= |calls| ensures WithinAt(limit, calls, i) {
        WithinSoFar(limit, calls, i);
      }
    } else {
      var i :| 0 <= i < |calls| && Overruns(limit, calls, i);
      if WithinAt(limit, calls, i) { WithinNext(limit, calls, i); }
    }
  }

  /** A wrap takes a buffer, or a limit, of nearly 2^63 bytes: with buffers of at most m
      bytes and a limit that leaves room for one more, none happens. */
  lemma {:induction false} OrdinaryBuffersNeverWrap(limit: int, calls: seq<Call>, m: nat)
    requires 0 < limit && limit + m <= MAX_INT64 && Plausible(calls)
    requires forall i :: 0 <= i < |calls| ==> |calls[i].b| <= m
    ensures NoWrap(limit, calls)
  {
    if calls != [] {
      var front := calls[..|calls| - 1];
      OrdinaryBuffersNeverWrap(limit, front, m);
      WithinBudget(limit, front);
      assert |calls[|calls| - 1].b| <= m;
    }
  }

  function Input(calls: seq<Call>): seq<byte> {
    if calls == [] then [] else Input(calls[..|calls| - 1]) + calls[|calls| - 1].b
  }

  lemma PrefixOfSum(limit: nat, before: seq<byte>, b: seq<byte>)
    ensures var kept := before[..Min(limit, |before|)];
            kept + b[..Min(|b|, limit - |kept|)] == (before + b)[..Min(limit, |before + b|)]
  {
    if limit < |before| {
      assert (before + b)[..limit] == before[..limit] + b[..0];
    }
  }

  lemma ForwardsWhatFits(limit: int, taken: seq<byte>, c: Call)
    requires 0 < limit <= MAX_INT64 && |taken| <= limit && |c.b| <= MAX_INT64 && |taken| + |c.b| <= MAX_INT64
    requires forall b :: c.w(b).0 == |b|
    ensures Forward(limit, taken, c) == Some(taken + c.b[..Min(|c.b|, limit - |taken|)])
  {
    HandedOnFits(limit, |taken|, |c.b|);
    var k := Min(|c.b|, limit - |taken|);
    assert c.w(c.b[..k]).0 == k;
  }

  /** When the wrapped writer takes everything it is handed, what reaches it is exactly
      the first limit bytes of the response. */
  lemma {:induction false} TakenIsPrefix(limit: int, calls: seq<Call>)
    requires 0 < limit <= MAX_INT64 && Plausible(calls) && NoWrap(limit, calls)
    requires forall i, b :: 0 <= i < |calls| ==> calls[i].w(b).0 == |b|
    ensures Taken(limit, calls) == Some(Input(calls)[..Min(limit, |Input(calls)|)])
  {
    if calls != [] {
      var front, last := calls[..|calls| - 1], calls[|calls| - 1];
      TakenIsPrefix(limit, front);
      WithinBudget(limit, front);
      ForwardsWhatFits(limit, Taken(limit, front).value, last);
      PrefixOfSum(limit, Input(front), last.b);
    }
  }

  /** A write that panics: an earlier total wrapped, so its whole buffer was handed on, and
      the wrapped writer took more than was left but not all of it. */
  lemma WrapThenPanic()
    ensures var big: seq<byte> := seq(MAX_INT64, _ => 0);
            var one, some := Call([0], s => (|s|, false)), Call(big, s => (Min(|s|, 15), false));
            var calls := [one, some, one];
            Plausible(calls) && Taken(10, calls) == None
  {
    var big: seq<byte> := seq(MAX_INT64, _ => 0);
    var one, all: Writer, some: Writer := [0], s => (|s|, false), s => (Min(|s|, 15), false);
    var calls := [Call(one, all), Call(big, some), Call(one, all)];
    HandedOnFits(10, 0, 1);
    HandedOnFits(10, 1, MAX_INT64);
    InBoundsExactly(10, 16, 1);
    assert calls[..2][..1] == [calls[0]] && calls[..1][..0] == [] && calls[..2][1] == calls[1];
    assert one[..1] == one && big[..MAX_INT64] == big;
    assert Taken(10, calls[..1]) == Some([] + one);
    assert Taken(10, calls[..2]) == Some([] + one + big[..15]);
  }
}
