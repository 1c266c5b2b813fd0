/** Negotiation over whole headers: by the weights as they are written, up to 15 digits. */
module HeaderNegotiation {
  import opened Wrappers
  import opened AcceptHeader
  import opened AcceptGrammar
  import opened AcceptParser
  import opened AcceptWeights
  import opened Negotiation
  import opened WeightReading

  // ---------- the elements of a header ----------

  /** A header line as written: elements, each with its comma, and a last one. */
  datatype Text = Text(parts: seq<Part>, last: Item, after: Octets)

  function PrintText(t: Text): Octets {
    PrintParts(t.parts, Print(t.last) + t.after)
  }

  function ItemsOf(t: Text): seq<Item> {
    seq(|t.parts|, i requires 0 <= i < |t.parts| => t.parts[i].item) + [t.last]
  }

  predicate IsText(t: Text) {
    && (forall i :: 0 <= i < |t.parts| ==> AllSpaces(t.parts[i].after) && AllSpaces(t.parts[i].next))
    && AllSpaces(t.after) && AllItems(ItemsOf(t))
  }

  predicate AllItems(items: seq<Item>) {
    forall i :: 0 <= i < |items| ==> IsItem(items[i])
  }

  predicate AllShort(items: seq<Item>, k: nat) {
    forall i :: 0 <= i < |items| ==> IsShort(items[i], k)
  }

  function PrintTexts(texts: seq<Text>): seq<Octets> {
    seq(|texts|, i requires 0 <= i < |texts| => PrintText(texts[i]))
  }

  function HeaderItems(texts: seq<Text>): seq<Item> {
    if texts == [] then [] else ItemsOf(texts[0]) + HeaderItems(texts[1..])
  }

  /** The elements as the code reads them, and as they are written. */
  function ReadSpecs(items: seq<Item>): seq<Spec>
    requires AllItems(items)
  {
    seq(|items|, i requires 0 <= i < |items| => SpecOf(items[i]))
  }

  function WrittenSpecs(items: seq<Item>): seq<Spec>
    requires AllItems(items)
  {
    seq(|items|, i requires 0 <= i < |items| => WrittenSpec(items[i]))
  }

  predicate AllTexts(texts: seq<Text>) {
    forall i :: 0 <= i < |texts| ==> IsText(texts[i])
  }

  lemma {:induction false} ItemsAreItems(texts: seq<Text>)
    requires AllTexts(texts)
    ensures AllItems(HeaderItems(texts))
  {
    if texts != [] {
      assert IsText(texts[0]);
      ItemsAreItems(texts[1..]);
    }
  }

  lemma {:induction false} SpecsOfParts(parts: seq<Part>, items: seq<Item>)
    requires AllWellFormed(parts) && AllItems(items) && |items| == |parts|
    requires forall i :: 0 <= i < |parts| ==> items[i] == parts[i].item
    ensures SpecsOf(parts) == ReadSpecs(items)
  {
    if parts != [] {
      assert WellFormedPart(parts[0]);
      SpecsOfParts(parts[1..], items[1..]);
      assert ReadSpecs(items) == [SpecOf(items[0])] + ReadSpecs(items[1..]);
    }
  }

  /** A line of elements that are accepted is read as these. */
  lemma LineOfText(t: Text)
    requires IsText(t) && AllShort(ItemsOf(t), 18)
    ensures Line(PrintText(t)) == ReadSpecs(ItemsOf(t))
  {
    var items := ItemsOf(t);
    var n := |t.parts|;
    forall i | 0 <= i < n ensures WellFormedPart(t.parts[i]) {
      assert items[i] == t.parts[i].item && IsItem(items[i]) && IsShort(items[i], 18);
      ShortIsWellFormed(items[i]);
    }
    assert items[n] == t.last && IsItem(items[n]) && IsShort(items[n], 18);
    ShortIsWellFormed(t.last);
    ParseUndoesPrint(t.parts, t.last, t.after);
    SpecsOfParts(t.parts, items[..n]);
    assert ReadSpecs(items) == ReadSpecs(items[..n]) + [SpecOf(t.last)];
  }

  lemma ReadSpecsAppend(a: seq<Item>, b: seq<Item>)
    requires AllItems(a + b)
    ensures AllItems(a) && AllItems(b) && ReadSpecs(a + b) == ReadSpecs(a) + ReadSpecs(b)
  {
    assert forall i :: 0 <= i < |a| ==> (a + b)[i] == a[i];
    assert forall i :: 0 <= i < |b| ==> (a + b)[|a| + i] == b[i];
  }

  lemma ShortAppend(a: seq<Item>, b: seq<Item>, k: nat)
    requires AllShort(a + b, k)
    ensures AllShort(a, k) && AllShort(b, k)
  {
    assert forall i :: 0 <= i < |a| ==> (a + b)[i] == a[i];
    assert forall i :: 0 <= i < |b| ==> (a + b)[|a| + i] == b[i];
  }

  lemma {:induction false} HeaderOfTexts(texts: seq<Text>)
    requires AllTexts(texts) && AllShort(HeaderItems(texts), 18) && AllItems(HeaderItems(texts))
    ensures Header(PrintTexts(texts)) == ReadSpecs(HeaderItems(texts))
  {
    if texts != [] {
      assert IsText(texts[0]);
      ShortAppend(ItemsOf(texts[0]), HeaderItems(texts[1..]), 18);
      ReadSpecsAppend(ItemsOf(texts[0]), HeaderItems(texts[1..]));
      LineOfText(texts[0]);
      HeaderOfTexts(texts[1..]);
      assert PrintTexts(texts)[1..] == PrintTexts(texts[1..]);
    }
  }

  // ---------- weights in the same order ----------

  /** The same values, with weights that compare alike among each other and with 0. */
  predicate SameOrder(a: seq<Spec>, b: seq<Spec>) {
    && |a| == |b|
    && (forall i :: 0 <= i < |a| ==> a[i].value == b[i].value && SameToZero(a[i].q, b[i].q))
    && (forall i, j :: 0 <= i < |a| && 0 <= j < |a| ==> (Less(a[i].q, a[j].q) <==> Less(b[i].q, b[j].q)))
  }

  predicate SameToZero(a: Float, b: Float) {
    && a.Num? && b.Num? && a.value >= 0.0 && b.value >= 0.0
    && (a.value == 0.0 <==> b.value == 0.0)
  }

  lemma NoDigitsRead(whole: real, ds: Octets, x: real)
    requires IsWhole(whole) && ds == [] && x == Value(ds) as real / Pow10(|ds|) as real
    ensures Plus(whole, Fraction(ds)) == Num(whole) && x == 0.0
  {
    TinyIsReading(whole, ds);
    FractionSign(Value(ds), Pow10(|ds|));
    NoFraction(whole, x);
  }

  lemma ReadIs(w: Weight)
    requires IsWeight(w)
    ensures Read(w) == Plus(Whole(w), Fraction(DigitsOf(w))) && WrittenWeight(w) == Written(Whole(w), DigitsOf(w))
  {
    if w.digits.None? {
      var ds := DigitsOf(w);
      NoDigitsRead(Whole(w), ds, Value(ds) as real / Pow10(|ds|) as real);
    }
  }

  lemma WeightsCompare(v: Weight, w: Weight)
    requires IsWeight(v) && IsWeight(w) && |DigitsOf(v)| <= 15 && |DigitsOf(w)| <= 15
    ensures Read(v).Num? && Read(w).Num? && (Less(Read(v), Read(w)) <==> WrittenWeight(v) < WrittenWeight(w))
  {
    ReadIs(v);
    ReadIs(w);
    ShortCompare(Whole(v), DigitsOf(v), Whole(w), DigitsOf(w));
  }

  lemma WeightToZero(w: Weight)
    requires IsWeight(w) && |DigitsOf(w)| <= 15
    ensures SameToZero(Read(w), Num(WrittenWeight(w)))
  {
    var zero := Weight(false, None);
    WeightsCompare(zero, w);
    ReadIs(w);
    ShortAccepted(Whole(w), DigitsOf(w));
    WrittenRange(Whole(w), DigitsOf(w));
  }

  lemma WrittenRange(whole: real, ds: Octets)
    requires IsWhole(whole) && AllDigits(ds)
    ensures Written(whole, ds) >= 0.0
  {
    ValueBound(ds);
    UnitRange(Value(ds) as real, Pow10(|ds|) as real);
  }

  /** Elements with at most 15 digits are read in the order of the weights written. */
  lemma ReadInOrder(items: seq<Item>)
    requires AllItems(items) && AllShort(items, 15)
    ensures SameOrder(ReadSpecs(items), WrittenSpecs(items))
  {
    forall i | 0 <= i < |items|
      ensures ReadSpecs(items)[i].value == WrittenSpecs(items)[i].value
      ensures SameToZero(ReadSpecs(items)[i].q, WrittenSpecs(items)[i].q)
    {
      assert IsShort(items[i], 15);
      WeightToZero(WeightOf(items[i]));
    }
    forall i, j | 0 <= i < |items| && 0 <= j < |items|
      ensures Less(ReadSpecs(items)[i].q, ReadSpecs(items)[j].q)
          <==> Less(WrittenSpecs(items)[i].q, WrittenSpecs(items)[j].q)
    {
      assert IsShort(items[i], 15) && IsShort(items[j], 15);
      WeightsCompare(WeightOf(items[i]), WeightOf(items[j]));
    }
  }

  // ---------- negotiation ----------

  /** Two folds that have answered alike so far. */
  predicate Alike(a: seq<Spec>, b: seq<Spec>, x: Best, y: Best) {
    && x.offer == y.offer
    && ((x.score == UNMATCHED && y.score == UNMATCHED)
        || exists i :: 0 <= i < |a| && i < |b| && x.score == ScoreOf(a[i]) && y.score == ScoreOf(b[i]))
  }

  lemma StepAlike(a: seq<Spec>, b: seq<Spec>, x: Best, y: Best, j: nat, offer: Octets)
    requires SameOrder(a, b) && Alike(a, b, x, y) && j < |a|
    ensures Alike(a, b, Step(x, a[j], offer), Step(y, b[j], offer))
  {
    assert Matches(a[j], offer) <==> Matches(b[j], offer);
    if x.score == UNMATCHED && y.score == UNMATCHED {
      assert Beats(ScoreOf(a[j]), UNMATCHED) && Beats(ScoreOf(b[j]), UNMATCHED);
    } else {
      var i :| 0 <= i < |a| && i < |b| && x.score == ScoreOf(a[i]) && y.score == ScoreOf(b[i]);
      assert Beats(ScoreOf(a[j]), x.score) <==> Beats(ScoreOf(b[j]), y.score);
    }
  }

  lemma RowTake(best: Best, specs: seq<Spec>, j: nat, offer: Octets)
    requires j < |specs|
    ensures Row(best, specs[..j + 1], offer) == Step(Row(best, specs[..j], offer), specs[j], offer)
  {
    RowAppend(best, specs[..j], specs[j], offer);
    assert specs[..j] + [specs[j]] == specs[..j + 1];
  }

  lemma {:induction false} RowAlike(a: seq<Spec>, b: seq<Spec>, x: Best, y: Best, j: nat, offer: Octets)
    requires SameOrder(a, b) && Alike(a, b, x, y) && j <= |a|
    ensures Alike(a, b, Row(x, a[..j], offer), Row(y, b[..j], offer))
    decreases j
  {
    if j > 0 {
      var k := j - 1;
      var x1, y1 := Row(x, a[..k], offer), Row(y, b[..k], offer);
      RowAlike(a, b, x, y, k, offer);
      StepAlike(a, b, x1, y1, k, offer);
      RowTake(x, a, k, offer);
      RowTake(y, b, k, offer);
    }
  }

  lemma {:induction false} SweepAlike(a: seq<Spec>, b: seq<Spec>, offers: seq<Octets>, default: Octets)
    requires SameOrder(a, b)
    ensures Alike(a, b, Sweep(a, offers, default), Sweep(b, offers, default))
  {
    if offers != [] {
      var front, last := offers[..|offers| - 1], offers[|offers| - 1];
      SweepAlike(a, b, front, default);
      assert a[..|a|] == a && b[..|b|] == b;
      RowAlike(a, b, Sweep(a, front, default), Sweep(b, front, default), |a|, last);
    }
  }

  /** Only the order of the weights decides. */
  lemma SameOrderSameChoice(a: seq<Spec>, b: seq<Spec>, offers: seq<Octets>, default: Octets)
    requires SameOrder(a, b)
    ensures Choose(a, offers, default) == Choose(b, offers, default)
  {
    SweepAlike(a, b, offers, default);
  }

  /** From any header whose weights have at most 15 digits, the code answers by the weights
      as they are written: the first offer with the best one, then the most specific. */
  lemma NegotiatesAsWritten(texts: seq<Text>, offers: seq<Octets>, default: Octets)
    requires AllTexts(texts) && AllItems(HeaderItems(texts)) && AllShort(HeaderItems(texts), 15)
    ensures var answer := Choose(Header(PrintTexts(texts)), offers, default);
            IsAnswer(WrittenSpecs(HeaderItems(texts)), offers, default, answer)
  {
    var items := HeaderItems(texts);
    assert AllShort(items, 18);
    HeaderOfTexts(texts);
    ReadInOrder(items);
    SameOrderSameChoice(ReadSpecs(items), WrittenSpecs(items), offers, default);
    ChooseIsAnswer(WrittenSpecs(items), offers, default);
  }

  lemma SixteenDigitsElement(b: Octets, ds: Octets)
    requires b != [] && AllTokens(b) && AllDigits(ds) && |ds| == 16 && Value(ds) == 1
    ensures Line(b + ";q=" + PrintWeight(Weight(true, Some(ds)))) == [Spec(b, Num(1.0))]
  {
    SixteenDigits(ds);
    OneElement(b, Weight(true, Some(ds)));
  }

  /** At 16 digits no longer: of a and b;q=1.0000000000000001 it answers the first one, though
      the second has the higher weight written. */
  lemma SixteenDigitsAnswer(a: Octets, b: Octets, ds: Octets, line: Octets, default: Octets)
    requires a != [] && AllTokens(a) && b != [] && AllTokens(b) && IsOneType(a) && IsOneType(b) && a != b
    requires AllDigits(ds) && |ds| == 16 && Value(ds) == 1
    requires line == b + ";q=" + PrintWeight(Weight(true, Some(ds)))
    ensures Written(1.0, ds) > 1.0 && Choose(Header([a, line]), [a, b], default) == a
  {
    SixteenDigits(ds);
    SixteenDigitsElement(b, ds);
    PlainElement(a);
    AnswersFirst(a, b, a, line, default);
  }

  lemma AnswersFirst(a: Octets, b: Octets, l1: Octets, l2: Octets, default: Octets)
    requires IsOneType(a) && IsOneType(b) && a != b
    requires Line(l1) == [Spec(a, Num(1.0))] && Line(l2) == [Spec(b, Num(1.0))]
    ensures Choose(Header([l1, l2]), [a, b], default) == a
  {
    TwoLines(l1, l2, Spec(a, Num(1.0)), Spec(b, Num(1.0)));
    FirstOfTwo(a, b, default);
  }

  /** An offer or a value that names one type. */
  predicate IsOneType(v: Octets) {
    v != "*/*" && !HasSuffix(v, "/*")
  }

  lemma PlainElement(v: Octets)
    requires v != [] && AllTokens(v)
    ensures Line(v) == [Spec(v, Num(1.0))]
  {
    TakesPlain(v, [], []);
    assert v + ([] + []) == v;
    LineOfOne(v, Element(v));
  }

  lemma TwoLines(l1: Octets, l2: Octets, s1: Spec, s2: Spec)
    requires Line(l1) == [s1] && Line(l2) == [s2]
    ensures Header([l1, l2]) == [s1, s2]
  {
    HeaderAppend([], l1);
    HeaderAppend([l1], l2);
    assert [] + [l1] == [l1] && [l1] + [l2] == [l1, l2];
  }

  lemma FirstOfTwo(a: Octets, b: Octets, default: Octets)
    requires a != b && IsOneType(a) && IsOneType(b)
    ensures Choose([Spec(a, Num(1.0)), Spec(b, Num(1.0))], [a, b], default) == a
  {
    var s, t := Spec(a, Num(1.0)), Spec(b, Num(1.0));
    SweepOfTwo([s, t], a, b, default);
    RowOfTwo(Best(UNMATCHED, default), s, t, a);
    RowOfTwo(Best(Score(Num(1.0), 0), a), s, t, b);
  }

  lemma RowOfTwo(best: Best, s: Spec, t: Spec, offer: Octets)
    ensures Row(best, [s, t], offer) == Step(Step(best, s, offer), t, offer)
  {
    RowAppend(best, [], s, offer);
    RowAppend(best, [s], t, offer);
    assert [] + [s] == [s] && [s] + [t] == [s, t];
  }

  // ---------- a weight that is no number ----------

  lemma PrintNext(item: Item, parts: seq<Part>, tail: Octets)
    ensures PrintParts([Part(item, [], [])] + parts, tail) == Print(item) + "," + PrintParts(parts, tail)
  {
    var all := [Part(item, [], [])] + parts;
    assert all[1..] == parts;
    assert Print(item) + [] + "," + [] == Print(item) + ",";
  }

  lemma PrintThree(i1: Item, i2: Item, tail: Octets)
    ensures PrintParts([Part(i1, [], []), Part(i2, [], [])], tail) == Print(i1) + "," + (Print(i2) + "," + tail)
  {
    PrintNext(i2, [], tail);
    PrintNext(i1, [Part(i2, [], [])], tail);
    assert [Part(i1, [], [])] + [Part(i2, [], [])] == [Part(i1, [], []), Part(i2, [], [])];
    assert [Part(i2, [], [])] + [] == [Part(i2, [], [])];
  }

  lemma SpecsOfTwo(p: Part, q: Part)
    requires AllWellFormed([p, q]) && WellFormedPart(p) && WellFormedPart(q)
    ensures SpecsOf([p, q]) == [SpecOf(p.item), SpecOf(q.item)]
  {
    var both, one := [p, q], [q];
    assert both[1..] == one && one[1..] == [];
    assert AllWellFormed(one);
    assert SpecsOf(one) == [SpecOf(q.item)] + SpecsOf([]);
    assert SpecsOf(both) == [SpecOf(p.item)] + SpecsOf(one);
  }

  lemma ThreeElements(i1: Item, i2: Item, i3: Item)
    requires WellFormed(i1) && WellFormed(i2) && WellFormed(i3)
    ensures Header([Print(i1) + "," + (Print(i2) + "," + Print(i3))]) == [SpecOf(i1), SpecOf(i2), SpecOf(i3)]
  {
    var p, q := Part(i1, [], []), Part(i2, [], []);
    var line := Print(i1) + "," + (Print(i2) + "," + Print(i3));
    ParseUndoesPrint([p, q], i3, []);
    assert Print(i3) + [] == Print(i3);
    PrintThree(i1, i2, Print(i3));
    SpecsOfTwo(p, q);
    HeaderAppend([], line);
    assert [] + [line] == [line];
  }

  lemma NaNItem(a: Octets, k: nat) returns (item: Item)
    requires a != [] && AllTokens(a) && k >= 64
    ensures WellFormed(item) && Print(item) == a + ";q=0." + Zeros(k) && SpecOf(item) == Spec(a, NaN)
  {
    item := Item(a, [], [], Some(Weight(false, Some(Zeros(k)))));
    ValueIsZero(Zeros(k));
    NaNExactly(0.0, Zeros(k));
  }

  lemma OverOneValue(ds: Octets)
    requires AllDigits(ds) && |ds| <= 15 && !AllZeros(ds)
    ensures Plus(1.0, Fraction(ds)).Num? && Plus(1.0, Fraction(ds)).value > 1.0
  {
    OverOneExactly(ds);
  }

  lemma OverOneItem(b: Octets, ds: Octets) returns (item: Item)
    requires b != [] && AllTokens(b) && AllDigits(ds) && |ds| <= 15 && !AllZeros(ds)
    ensures WellFormed(item) && Print(item) == b + ";q=1." + ds
    ensures SpecOf(item).value == b && SpecOf(item).q.Num? && SpecOf(item).q.value > 1.0
  {
    item := Item(b, [], [], Some(Weight(true, Some(ds))));
    OverOneValue(ds);
    assert Read(item.weight.value) == Plus(1.0, Fraction(ds));
    assert Print(item) == b + ";q=1." + ds;
  }

  /** A weight of 64 zeros or more makes the order of the elements matter: the same three
      elements, in two orders, are answered by different offers. */
  lemma HeaderOrderMatters(a: Octets, b: Octets, ds: Octets, k: nat, default: Octets)
    requires a != [] && AllTokens(a) && b != [] && AllTokens(b) && IsOneType(a) && IsOneType(b) && a != b
    requires AllDigits(ds) && |ds| <= 15 && !AllZeros(ds) && k >= 64
    ensures var nan, more := a + ";q=0." + Zeros(k), b + ";q=1." + ds;
            Choose(Header([nan + "," + (a + "," + more)]), [a, b], default) == a
            && Choose(Header([a + "," + (nan + "," + more)]), [a, b], default) == b
  {
    var i1 := NaNItem(a, k);
    var i2 := Item(a, [], [], None);
    var i3 := OverOneItem(b, ds);
    assert Print(i2) == a;
    ThreeElements(i1, i2, i3);
    ThreeElements(i2, i1, i3);
    OrderMattersWithNaN(a, b, SpecOf(i3).q.value, default);
  }

  // ---------- parameters ----------

  /** A line that is a value with a parameter which is no readable weight adds nothing to a
      header; alone, it leaves the default. */
  lemma ParameterIsNotNegotiated(lines: seq<Octets>, v: Octets, pre: Octets, post: Octets, p: Octets, line: Octets,
                                 offers: seq<Octets>, default: Octets)
    requires AllTokens(v) && AllSpaces(pre) && AllSpaces(post) && !StartsSpace(p) && !StartsWeight(p)
    requires line == v + (pre + (";" + (post + p)))
    ensures Header(lines + [line]) == Header(lines)
    ensures Choose(Header([line]), offers, default) == default
  {
    ParameterEndsLine(v, pre, post, p);
    HeaderAppend(lines, line);
    HeaderAppend([], line);
    assert [] + [line] == [line];
    ChooseIsAnswer([], offers, default);
  }

  /** Such as the level of text/html;level=1. */
  lemma LevelIsNotNegotiated(v: Octets, p: Octets, line: Octets, default: Octets)
    requires v == "text/html" && p == "level=1" && line == v + ";" + p
    ensures Choose(Header([line]), [v], default) == default
  {
    forall i | 0 <= i < |v| ensures IsTokenSlash(v[i]) { OctetClasses(v[i]); }
    OctetClasses(p[0]);
    assert line == v + ([] + (";" + ([] + p)));
    ParameterIsNotNegotiated([], v, [], [], p, line, [v], default);
  }
}
