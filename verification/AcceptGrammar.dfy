/** The lines the parser reads, as a printer of elements; parsing undoes printing, and
    every element parsed is the print of one. */
module AcceptGrammar {
  import opened Wrappers
  import opened AcceptHeader
  import opened AcceptWeights
  import opened WeightReading

  /** A weight as written: 0 or 1, and the digits after its point if it has one. */
  datatype Weight = Weight(one: bool, digits: Option<Octets>)

  /** An element as written: spaces are free before and after the semicolon. */
  datatype Item = Item(value: Octets, pre: Octets, post: Octets, weight: Option<Weight>)

  predicate AllSpaces(s: Octets) { forall i :: 0 <= i < |s| ==> IsSpace(s[i]) }

  predicate AllTokens(s: Octets) { forall i :: 0 <= i < |s| ==> IsTokenSlash(s[i]) }

  predicate IsWeight(w: Weight) {
    w.digits.Some? ==> AllDigits(w.digits.value)
  }

  predicate IsItem(item: Item) {
    && item.value != [] && AllTokens(item.value) && AllSpaces(item.pre) && AllSpaces(item.post)
    && (item.weight.Some? ==> IsWeight(item.weight.value))
  }

  /** An element the code accepts: its weight does not come out negative. */
  predicate WellFormed(item: Item) {
    IsItem(item) && !IsNegative(Read(WeightOf(item)))
  }

  function PrintWeight(w: Weight): Octets {
    (if w.one then "1" else "0") + match w.digits case None => [] case Some(ds) => "." + ds
  }

  function Print(item: Item): Octets {
    item.value + item.pre + match item.weight case None => [] case Some(w) => ";" + item.post + "q=" + PrintWeight(w)
  }

  function Whole(w: Weight): real {
    if w.one then 1.0 else 0.0
  }

  /** The weight as the code reads it, and as it is written. */
  function Read(w: Weight): Float
    requires IsWeight(w)
  {
    match w.digits
    case None => Num(Whole(w))
    case Some(ds) => Plus(Whole(w), Fraction(ds))
  }

  function WrittenWeight(w: Weight): real
    requires IsWeight(w)
  {
    match w.digits
    case None => Whole(w)
    case Some(ds) => Written(Whole(w), ds)
  }

  /** An element without a weight has weight 1. */
  function WeightOf(item: Item): Weight {
    if item.weight.Some? then item.weight.value else Weight(true, None)
  }

  function SpecOf(item: Item): Spec
    requires IsItem(item)
  {
    Spec(item.value, Read(WeightOf(item)))
  }

  function WrittenSpec(item: Item): Spec
    requires IsItem(item)
  {
    Spec(item.value, Num(WrittenWeight(WeightOf(item))))
  }

  function DigitsOf(w: Weight): Octets {
    match w.digits case None => [] case Some(ds) => ds
  }

  predicate IsShort(item: Item, k: nat) {
    |DigitsOf(WeightOf(item))| <= k
  }

  /** Up to 18 digits, an element is accepted. */
  lemma ShortIsWellFormed(item: Item)
    requires IsItem(item) && IsShort(item, 18)
    ensures WellFormed(item)
  {
    var w := WeightOf(item);
    if w.digits.Some? { ShortAccepted(Whole(w), w.digits.value); }
  }

  // ---------- each reading step stops where the print does ----------

  predicate StartsSpace(s: Octets) { s != [] && IsSpace(s[0]) }

  lemma {:induction false} SkipsSpaces(ws: Octets, rest: Octets)
    requires AllSpaces(ws) && !StartsSpace(rest)
    ensures SkipSpace(ws + rest) == rest
  {
    if ws == [] {
      assert ws + rest == rest;
    } else {
      SkipsSpaces(ws[1..], rest);
      assert (ws + rest)[1..] == ws[1..] + rest && (ws + rest)[0] == ws[0];
    }
  }

  lemma {:induction false} TakesTokens(v: Octets, rest: Octets)
    requires AllTokens(v) && (rest == [] || !IsTokenSlash(rest[0]))
    ensures TokenSlash(v + rest) == (v, rest)
  {
    if v == [] {
      assert v + rest == rest;
    } else {
      TakesTokens(v[1..], rest);
      assert (v + rest)[1..] == v[1..] + rest && (v + rest)[0] == v[0];
      assert v == [v[0]] + v[1..];
    }
  }

  lemma {:induction false} TakesDigits(ds: Octets, rest: Octets)
    requires AllDigits(ds) && (rest == [] || !IsDigit(rest[0]))
    ensures Digits(ds + rest) == (ds, rest)
  {
    if ds == [] {
      assert ds + rest == rest;
    } else {
      TakesDigits(ds[1..], rest);
      assert (ds + rest)[1..] == ds[1..] + rest && (ds + rest)[0] == ds[0];
      assert ds == [ds[0]] + ds[1..];
    }
  }

  // ---------- where an element ends ----------

  predicate StartsToken(s: Octets) { s != [] && IsTokenSlash(s[0]) }

  predicate StartsDigit(s: Octets) { s != [] && IsDigit(s[0]) }

  /** What follows a weight and cannot belong to it. */
  predicate WeightStops(w: Weight, rest: Octets) {
    if w.digits.Some? then !StartsDigit(rest) else !StartsWith(rest, '.')
  }

  /** What follows an element and cannot belong to it: spaces belong to a value, and to its
      semicolon. */
  predicate Stops(item: Item, rest: Octets) {
    match item.weight
    case None => !StartsSpace(rest) && !StartsWith(rest, ';') && (item.pre == [] ==> !StartsToken(rest))
    case Some(w) => WeightStops(w, rest)
  }

  lemma TakesPoint(one: bool, ds: Octets, rest: Octets)
    requires AllDigits(ds) && !StartsDigit(rest)
    ensures var s := (if one then "1" else "0") + ("." + ds) + rest;
            s[0] == (if one then '1' else '0') && StartsWith(s[1..], '.') && Digits(s[2..]) == (ds, rest)
  {
    var s := (if one then "1" else "0") + ("." + ds) + rest;
    assert s[1..] == "." + ds + rest && s[2..] == ds + rest;
    TakesDigits(ds, rest);
  }

  lemma TakesWeight(w: Weight, rest: Octets)
    requires IsWeight(w) && WeightStops(w, rest)
    ensures Quality(PrintWeight(w) + rest) == Some((Read(w), rest))
  {
    match w.digits
    case None => assert (PrintWeight(w) + rest)[1..] == rest;
    case Some(ds) => TakesPoint(w.one, ds, rest);
  }

  lemma SpaceOrComma(c: octet)
    ensures IsSpace(c) || c == ',' || c == ';' ==> !IsTokenSlash(c) && !IsDigit(c) && c != '.'
    ensures c == ',' || c == ';' || c == 'q' ==> !IsSpace(c)
  {
  }

  lemma TakesPlain(v: Octets, ws: Octets, rest: Octets)
    requires v != [] && AllTokens(v) && AllSpaces(ws) && Stops(Item(v, ws, [], None), rest)
    ensures Element(v + (ws + rest)) == Some((Spec(v, Num(1.0)), rest))
  {
    var r := ws + rest;
    if ws != [] { SpaceOrComma(ws[0]); }
    TakesTokens(v, r);
    SkipsSpaces(ws, rest);
  }

  function Weighted(post: Octets, w: Weight, tail: Octets): Octets {
    ";" + (post + ("q=" + (PrintWeight(w) + tail)))
  }

  lemma PrintShape(item: Item, w: Weight, rest: Octets)
    requires item.weight == Some(w)
    ensures Print(item) + rest == item.value + (item.pre + Weighted(item.post, w, rest))
  {
  }

  lemma TakesPost(post: Octets, w: Weight, tail: Octets)
    requires AllSpaces(post) && IsWeight(w) && WeightStops(w, tail)
    ensures var q := SkipSpace(Weighted(post, w, tail)[1..]);
            |q| >= 2 && q[..2] == "q=" && Quality(q[2..]) == Some((Read(w), tail))
  {
    var q: Octets := "q=" + (PrintWeight(w) + tail);
    assert Weighted(post, w, tail)[1..] == post + q;
    SpaceOrComma('q');
    SkipsSpaces(post, q);
    assert q[2..] == PrintWeight(w) + tail;
    TakesWeight(w, tail);
  }

  lemma TakesWeighted(item: Item, w: Weight, rest: Octets)
    requires IsItem(item) && item.weight == Some(w) && WeightStops(w, rest)
    ensures Element(Print(item) + rest) == if IsNegative(Read(w)) then None else Some((SpecOf(item), rest))
  {
    var semi := Weighted(item.post, w, rest);
    PrintShape(item, w, rest);
    SpaceOrComma((item.pre + semi)[0]);
    TakesTokens(item.value, item.pre + semi);
    SpaceOrComma(';');
    SkipsSpaces(item.pre, semi);
    TakesPost(item.post, w, rest);
    ElementStep(Print(item) + rest, item.value, item.pre + semi, SkipSpace(semi[1..]), Read(w), rest);
  }

  /** A printed element is read back up to where it ends, whatever follows, unless its
      weight comes out negative. */
  lemma TakesPrinted(item: Item, rest: Octets)
    requires IsItem(item) && Stops(item, rest)
    ensures Element(Print(item) + rest) == if WellFormed(item) then Some((SpecOf(item), rest)) else None
  {
    match item.weight
    case None =>
      TakesPlain(item.value, item.pre, rest);
      assert Print(item) + rest == item.value + (item.pre + rest);
    case Some(w) =>
      TakesWeighted(item, w, rest);
  }

  function Spaced(item: Item, after: Octets): Item {
    item.(pre := item.pre + after)
  }

  lemma PrintSpaced(item: Item, after: Octets)
    requires WellFormed(item) && item.weight.None? && AllSpaces(after)
    ensures WellFormed(Spaced(item, after)) && SpecOf(Spaced(item, after)) == SpecOf(item)
    ensures Print(Spaced(item, after)) == Print(item) + after
  {
  }

  lemma CommaOrEnd(item: Item, after: Octets, rest: Octets)
    requires AllSpaces(after) && (rest == [] || rest[0] == ',')
    ensures SkipSpace(after + rest) == rest && SkipSpace(rest) == rest
    ensures if item.weight.Some? then WeightStops(item.weight.value, after + rest) else Stops(Spaced(item, after), rest)
  {
    if rest != [] { SpaceOrComma(rest[0]); }
    if after + rest != [] { SpaceOrComma((after + rest)[0]); }
    SkipsSpaces(after, rest);
    SkipsSpaces([], rest);
    assert [] + rest == rest;
  }

  lemma Regroup(a: Octets, b: Octets, c: Octets)
    ensures a + (b + c) == a + b + c
  {
  }

  /** The element with the spaces after it: those after a value belong to it. */
  lemma TakesItem(item: Item, after: Octets, rest: Octets)
    requires WellFormed(item) && AllSpaces(after) && (rest == [] || rest[0] == ',')
    ensures Element(Print(item) + after + rest).Some?
    ensures var (spec, r) := Element(Print(item) + after + rest).value;
            spec == SpecOf(item) && SkipSpace(r) == rest
  {
    CommaOrEnd(item, after, rest);
    if item.weight.None? {
      PrintSpaced(item, after);
      TakesPrinted(Spaced(item, after), rest);
    } else {
      TakesPrinted(item, after + rest);
      Regroup(Print(item), after, rest);
    }
  }

  /** An element is turned away exactly when its weight comes out negative. */
  lemma AcceptedExactlyWellFormed(item: Item, rest: Octets)
    requires IsItem(item) && Stops(item, rest)
    ensures Element(Print(item) + rest).Some? <==> WellFormed(item)
  {
    TakesPrinted(item, rest);
  }

  function Zeros(k: nat): (ds: Octets)
    ensures |ds| == k && AllDigits(ds) && AllZeros(ds)
  {
    if k == 0 then [] else "0" + Zeros(k - 1)
  }

  lemma ZerosThenOne(k: nat)
    ensures Value(Zeros(k) + "1") == 1
  {
    ValueAppend(Zeros(k), '1');
    ValueIsZero(Zeros(k));
  }

  lemma ElementOfOne(item: Item, w: Weight)
    requires IsItem(item) && item.weight == Some(w)
    ensures Element(Print(item)) == if IsNegative(Read(w)) then None else Some((Spec(item.value, Read(w)), []))
  {
    TakesWeighted(item, w, []);
    assert Print(item) + [] == Print(item);
  }

  lemma OneElement(v: Octets, w: Weight)
    requires v != [] && AllTokens(v) && IsWeight(w)
    ensures Line(v + ";q=" + PrintWeight(w)) == if IsNegative(Read(w)) then [] else [Spec(v, Read(w))]
  {
    var item := Item(v, [], [], Some(w));
    assert Print(item) == v + ";q=" + PrintWeight(w);
    ElementOfOne(item, w);
    LineOfOne(Print(item), Element(Print(item)));
  }

  lemma LineOfOne(s: Octets, e: Option<(Spec, Octets)>)
    requires Element(s) == e && (e.Some? ==> e.value.1 == [])
    ensures Line(s) == if e.None? then [] else [e.value.0]
  {
  }

  /** An element whose weight has 19 digits is turned away exactly for these values; the
      code reads on after one that is not. */
  lemma NineteenTurnsAway(v: Octets, w: Weight)
    requires v != [] && AllTokens(v) && IsWeight(w) && w.digits.Some? && |w.digits.value| == 19
    ensures Line(v + ";q=" + PrintWeight(w)) == []
        <==> (if w.one then 8446744073709552128 else 0) < Value(w.digits.value) <= 9223372036854775807
  {
    OneElement(v, w);
    NineteenDigits(Whole(w), w.digits.value);
  }

  /** A weight of 0, a point, 18 zeros and a 1 is such a weight. */
  lemma TinyWeightIsTurnedAway(v: Octets, k: nat)
    requires v != [] && AllTokens(v) && k == 18
    ensures Line(v + ";q=" + PrintWeight(Weight(false, Some(Zeros(k) + "1")))) == []
  {
    ZerosThenOne(k);
    NineteenTurnsAway(v, Weight(false, Some(Zeros(k) + "1")));
  }

  // ---------- whole lines ----------

  /** An item, the spaces after it, and those after the comma that follows. */
  datatype Part = Part(item: Item, after: Octets, next: Octets)

  predicate WellFormedPart(p: Part) {
    WellFormed(p.item) && AllSpaces(p.after) && AllSpaces(p.next)
  }

  predicate AllWellFormed(parts: seq<Part>) {
    forall i :: 0 <= i < |parts| ==> WellFormedPart(parts[i])
  }

  /** The items, each with its comma, and then tail. */
  function PrintParts(parts: seq<Part>, tail: Octets): Octets {
    if parts == [] then tail
    else Print(parts[0].item) + parts[0].after + "," + parts[0].next + PrintParts(parts[1..], tail)
  }

  function SpecsOf(parts: seq<Part>): seq<Spec>
    requires AllWellFormed(parts)
  {
    if parts == [] then []
    else assert WellFormedPart(parts[0]); [SpecOf(parts[0].item)] + SpecsOf(parts[1..])
  }

  lemma PartsStart(parts: seq<Part>, tail: Octets)
    requires AllWellFormed(parts) && !StartsSpace(tail)
    ensures !StartsSpace(PrintParts(parts, tail))
  {
    if parts != [] {
      assert WellFormedPart(parts[0]);
      var v := parts[0].item.value;
      assert IsTokenSlash(v[0]);
      SpaceOrComma(v[0]);
      assert PrintParts(parts, tail)[0] == v[0];
    }
  }

  lemma LineOfPart(p: Part, more: Octets)
    requires WellFormedPart(p) && !StartsSpace(more)
    ensures Line(Print(p.item) + p.after + "," + p.next + more) == [SpecOf(p.item)] + Line(more)
  {
    var rest: Octets := "," + (p.next + more);
    var s := Print(p.item) + p.after + rest;
    assert s == Print(p.item) + p.after + "," + p.next + more;
    TakesItem(p.item, p.after, rest);
    var (spec, r) := Element(s).value;
    assert rest[1..] == p.next + more;
    SkipsSpaces(p.next, more);
    LineStep([], s, spec, r);
    assert [] + Line(s) == Line(s) && [] + [spec] == [spec];
  }

  /** Printed elements are read back, and then what follows their last comma is parsed. */
  lemma {:induction false} LineOfParts(parts: seq<Part>, tail: Octets)
    requires AllWellFormed(parts) && !StartsSpace(tail)
    ensures Line(PrintParts(parts, tail)) == SpecsOf(parts) + Line(tail)
    decreases |parts|
  {
    if parts == [] {
      assert [] + Line(tail) == Line(tail);
    } else {
      var p, more := parts[0], PrintParts(parts[1..], tail);
      assert WellFormedPart(p);
      PartsStart(parts[1..], tail);
      LineOfPart(p, more);
      LineOfParts(parts[1..], tail);
      assert PrintParts(parts, tail) == Print(p.item) + p.after + "," + p.next + more;
      assert SpecsOf(parts) == [SpecOf(p.item)] + SpecsOf(parts[1..]);
      Assoc([SpecOf(p.item)], SpecsOf(parts[1..]), Line(tail));
    }
  }

  /** A line printed from accepted elements is read back as the code reads those. */
  lemma ParseUndoesPrint(parts: seq<Part>, last: Item, after: Octets)
    requires AllWellFormed(parts) && WellFormed(last) && AllSpaces(after)
    ensures Line(PrintParts(parts, Print(last) + after)) == SpecsOf(parts) + [SpecOf(last)]
  {
    var tail := Print(last) + after;
    assert IsTokenSlash(last.value[0]) && tail[0] == last.value[0];
    SpaceOrComma(last.value[0]);
    LineOfParts(parts, tail);
    TakesItem(last, after, []);
    assert Print(last) + after + [] == tail;
  }

  /** A malformed element ends its own line, keeps what came before it, and leaves the
      other lines of the header alone. */
  lemma MalformedEndsLine(parts: seq<Part>, bad: Octets, lines: seq<Octets>)
    requires AllWellFormed(parts) && !StartsSpace(bad) && Element(bad) == None
    ensures Header([PrintParts(parts, bad)] + lines) == SpecsOf(parts) + Header(lines)
  {
    LineOfParts(parts, bad);
    var all := [PrintParts(parts, bad)] + lines;
    assert all[1..] == lines;
    assert SpecsOf(parts) + [] == SpecsOf(parts);
  }

  // ---------- and only such elements are read ----------

  lemma {:induction false} SkippedSpaces(s: Octets) returns (ws: Octets)
    ensures AllSpaces(ws) && s == ws + SkipSpace(s) && !StartsSpace(SkipSpace(s))
  {
    if s == [] || !IsSpace(s[0]) {
      ws := [];
    } else {
      var more := SkippedSpaces(s[1..]);
      ws := [s[0]] + more;
    }
  }

  lemma {:induction false} TakenTokens(s: Octets)
    ensures AllTokens(TokenSlash(s).0) && s == TokenSlash(s).0 + TokenSlash(s).1 && !StartsToken(TokenSlash(s).1)
  {
    if s != [] && IsTokenSlash(s[0]) {
      TakenTokens(s[1..]);
    }
  }

  lemma {:induction false} TakenDigits(s: Octets)
    ensures s == Digits(s).0 + Digits(s).1 && !StartsDigit(Digits(s).1)
  {
    if s != [] && IsDigit(s[0]) {
      TakenDigits(s[1..]);
    }
  }

  lemma TakenWeight(s: Octets) returns (w: Weight)
    requires Quality(s).Some?
    ensures IsWeight(w) && WeightStops(w, Quality(s).value.1)
    ensures s == PrintWeight(w) + Quality(s).value.1 && Quality(s).value.0 == Read(w)
  {
    if StartsWith(s[1..], '.') {
      TakenDigits(s[2..]);
      w := Weight(s[0] == '1', Some(Digits(s[2..]).0));
      assert s == [s[0]] + "." + s[2..];
    } else {
      w := Weight(s[0] == '1', None);
      assert s == [s[0]] + s[1..];
    }
  }

  lemma SemicolonSplits(s1: Octets, post: Octets, q: Octets, printed: Octets, rest: Octets)
    requires StartsWith(s1, ';') && s1[1..] == post + q && |q| >= 2 && q[..2] == "q=" && q[2..] == printed + rest
    ensures s1 == ";" + (post + ("q=" + (printed + rest)))
  {
    var semi: Octets := ";";
    assert s1 == semi + s1[1..];
    assert q == q[..2] + q[2..];
  }

  lemma WeightedIsPrinted(s1: Octets) returns (post: Octets, w: Weight)
    requires StartsWith(s1, ';')
    requires var q := SkipSpace(s1[1..]); |q| >= 2 && q[..2] == "q=" && Quality(q[2..]).Some?
    ensures AllSpaces(post) && IsWeight(w)
    ensures var (x, rest) := Quality(SkipSpace(s1[1..])[2..]).value;
            s1 == Weighted(post, w, rest) && x == Read(w) && WeightStops(w, rest)
  {
    post := SkippedSpaces(s1[1..]);
    var q := SkipSpace(s1[1..]);
    w := TakenWeight(q[2..]);
    SemicolonSplits(s1, post, q, PrintWeight(w), Quality(q[2..]).value.1);
  }

  lemma WeightedElementIsPrinted(s: Octets, pre: Octets) returns (item: Item)
    requires var (v, r) := TokenSlash(s); r == pre + SkipSpace(r) && AllSpaces(pre) && AllTokens(v) && s == v + r
    requires StartsWith(SkipSpace(TokenSlash(s).1), ';') && Element(s).Some?
    ensures WellFormed(item) && s == Print(item) + Element(s).value.1 && SpecOf(item) == Element(s).value.0
    ensures Stops(item, Element(s).value.1)
  {
    var (v, r) := TokenSlash(s);
    var s1 := SkipSpace(r);
    var post, w := WeightedIsPrinted(s1);
    item := Item(v, pre, post, Some(w));
    var (x, rest) := Quality(SkipSpace(s1[1..])[2..]).value;
    ElementStep(s, v, r, SkipSpace(s1[1..]), x, rest);
    PrintShape(item, w, rest);
  }

  lemma PlainElementIsPrinted(s: Octets, v: Octets, pre: Octets, s1: Octets)
    requires v != [] && AllTokens(v) && AllSpaces(pre) && s == v + (pre + s1) && !StartsToken(pre + s1)
    requires Element(s) == Some((Spec(v, Num(1.0)), s1)) && !StartsSpace(s1) && !StartsWith(s1, ';')
    ensures var item := Item(v, pre, [], None);
            WellFormed(item) && s == Print(item) + s1 && SpecOf(item) == Spec(v, Num(1.0)) && Stops(item, s1)
  {
    if pre == [] { assert pre + s1 == s1; }
    Regroup(v, pre, s1);
  }

  /** Every element the parser accepts is the print of a well-formed one with that value
      and weight, up to where the parser stopped, which is where the element ends. */
  lemma ElementIsPrinted(s: Octets) returns (item: Item)
    requires Element(s).Some?
    ensures WellFormed(item) && s == Print(item) + Element(s).value.1 && SpecOf(item) == Element(s).value.0
    ensures Stops(item, Element(s).value.1)
  {
    TakenTokens(s);
    var (v, r) := TokenSlash(s);
    var pre := SkippedSpaces(r);
    var s1 := SkipSpace(r);
    if StartsWith(s1, ';') {
      item := WeightedElementIsPrinted(s, pre);
    } else {
      item := Item(v, pre, [], None);
      PlainElementIsPrinted(s, v, pre, s1);
    }
  }

  /** An element is read from an input exactly when the input is the print of a well-formed
      one and a rest that cannot belong to it, and then it is that element. */
  lemma ElementExactly(s: Octets, spec: Spec, rest: Octets)
    ensures Element(s) == Some((spec, rest))
        <==> exists item :: WellFormed(item) && s == Print(item) + rest && Stops(item, rest) && spec == SpecOf(item)
  {
    if Element(s) == Some((spec, rest)) {
      var item := ElementIsPrinted(s);
    }
    if item :| WellFormed(item) && s == Print(item) + rest && Stops(item, rest) && spec == SpecOf(item) {
      TakesPrinted(item, rest);
    }
  }

  /** The last piece of a line: what its first element is, if it has one, and no comma after. */
  predicate LastPiece(tail: Octets, specs: seq<Spec>) {
    match Element(tail)
    case None => specs == []
    case Some((spec, rest)) => specs == [spec] && !StartsWith(SkipSpace(rest), ',')
  }

  /** Every line is the print of well-formed elements, read as those, and then of a last
      piece, of which the parser reads the first element alone, if it is one. */
  lemma {:induction false} LineIsPrinted(s: Octets) returns (parts: seq<Part>, tail: Octets)
    ensures AllWellFormed(parts) && s == PrintParts(parts, tail)
    ensures Line(s) == SpecsOf(parts) + Line(tail) && LastPiece(tail, Line(tail))
    decreases |s|
  {
    parts, tail := [], s;
    if Element(s).Some? {
      var (spec, rest) := Element(s).value;
      var s1 := SkipSpace(rest);
      LineStep([], s, spec, rest);
      if StartsWith(s1, ',') {
        var item := ElementIsPrinted(s);
        var after := SkippedSpaces(rest);
        var next := SkippedSpaces(s1[1..]);
        var more, t := LineIsPrinted(SkipSpace(s1[1..]));
        var p := Part(item, after, next);
        PartPrints(p, rest, s1, SkipSpace(s1[1..]));
        parts, tail := [p] + more, t;
        assert parts[1..] == more;
        Assoc([spec], SpecsOf(more), Line(t));
      }
    }
  }

  lemma PartPrints(p: Part, rest: Octets, s1: Octets, s2: Octets)
    requires rest == p.after + s1 && StartsWith(s1, ',') && s1[1..] == p.next + s2
    ensures Print(p.item) + rest == Print(p.item) + p.after + "," + p.next + s2
  {
    var comma: Octets := ",";
    assert s1 == comma + s1[1..];
  }

  // ---------- octet classes, and parameters that are no weights ----------

  /** The octet classes by their members. */
  lemma OctetClasses(c: octet)
    ensures IsTokenSlash(c)
        <==> 'a' <= c <= 'z' || 'A' <= c <= 'Z' || '0' <= c <= '9' || c in "!#$%&'*+-.^_`|~" || c == '/'
    ensures IsSpace(c) <==> c == ' ' || c == '\t' || c == '\r' || c == '\n'
  {
    TokensOnly(c);
  }

  lemma TokensOnly(c: octet)
    ensures IsToken(c) <==> 'a' <= c <= 'z' || 'A' <= c <= 'Z' || '0' <= c <= '9' || c in "!#$%&'*+-.^_`|~"
  {
    if c < '0' {
    } else if c < 'A' {
    } else if c < 'a' {
    } else {
    }
  }

  /** A parameter that a weight could be read from. */
  predicate StartsWeight(p: Octets) {
    |p| >= 3 && p[..2] == "q=" && (p[2] == '0' || p[2] == '1')
  }

  /** A value with a parameter that is no readable weight: nothing of it is kept, and it ends
      its line. */
  lemma ParameterEndsLine(v: Octets, pre: Octets, post: Octets, p: Octets)
    requires AllTokens(v) && AllSpaces(pre) && AllSpaces(post) && !StartsSpace(p) && !StartsWeight(p)
    ensures Line(v + (pre + (";" + (post + p)))) == []
  {
    var semi: Octets := ";" + (post + p);
    var r := pre + semi;
    SpaceOrComma(r[0]);
    TakesTokens(v, r);
    SpaceOrComma(';');
    SkipsSpaces(pre, semi);
    assert semi[1..] == post + p;
    SkipsSpaces(post, p);
    if |p| >= 2 && p[..2] == "q=" {
      assert Quality(p[2..]) == None;
    }
    assert Element(v + r) == None;
  }
}
