/** negotiateContentType: the first offer that attains the best weight and, among equal
    weights, the best specificity over all matching specs. */
module Negotiation {
  import opened AcceptHeader
  import opened AcceptParser
  import opened AcceptWeights

  // ---------- specification ----------

  predicate HasSuffix(s: Octets, suffix: Octets) {
    |suffix| <= |s| && s[|s| - |suffix|..] == suffix
  }

  /** How unspecific a spec is: 2 for any type, 1 for any subtype, 0 for one type. */
  function Wildness(spec: Spec): nat {
    if spec.value == "*/*" then 2 else if HasSuffix(spec.value, "/*") then 1 else 0
  }

  predicate Matches(spec: Spec, offer: Octets) {
    spec.q != Num(0.0) &&
    match Wildness(spec)
    case 2 => true
    case 1 => spec.value[..|spec.value| - 1] <= offer
    case _ => spec.value == offer
  }

  /** How good a match is: the higher weight wins, then the lower wildness. */
  datatype Score = Score(q: Float, wild: nat)

  predicate Better(a: Score, b: Score) {
    Less(b.q, a.q) || (a.q == b.q && a.wild < b.wild)
  }

  function ScoreOf(spec: Spec): Score {
    Score(spec.q, Wildness(spec))
  }

  /** A spec of non-zero weight matches every offer if it is of any type, the offers of its
      type if it is of any subtype, and the offer that it names. */
  lemma MatchesMeans(spec: Spec, offer: Octets)
    ensures Matches(spec, offer)
        <==> spec.q != Num(0.0)
             && (spec.value == "*/*" || spec.value == offer
                 || exists t: Octets, sub :: spec.value == t + "/*" && offer == t + "/" + sub)
  {
    var n := |spec.value|;
    if HasSuffix(spec.value, "/*") && spec.value[..n - 1] <= offer {
      var t := spec.value[..n - 2];
      assert spec.value == t + spec.value[n - 2..] && offer == t + "/" + offer[n - 1..];
    }
    if t: Octets, sub :| spec.value == t + "/*" && offer == t + "/" + sub {
      assert spec.value[n - 2..] == "/*" && spec.value[..n - 1] == t + "/";
    }
    if spec.value == offer && HasSuffix(spec.value, "/*") {
      assert spec.value[..n - 1] <= offer;
    }
  }

  /** Of two specs the better has the higher weight or, for equal ones, names more: one type
      rather than any subtype, and that rather than any type. */
  lemma ScoreMeans(a: Spec, b: Spec)
    ensures Better(ScoreOf(a), ScoreOf(b))
        <==> Less(b.q, a.q)
             || (a.q == b.q && ((a.value != "*/*" && b.value == "*/*")
                                || (!HasSuffix(a.value, "/*") && HasSuffix(b.value, "/*"))))
  {
    assert HasSuffix("*/*", "/*");
  }

  lemma HasSuffixMeans(s: Octets, suffix: Octets)
    ensures HasSuffix(s, suffix) <==> exists t :: s == t + suffix
  {
    if HasSuffix(s, suffix) { assert s == s[..|s| - |suffix|] + suffix; }
  }

  /** offer matches some spec with this score. */
  ghost predicate Attains(specs: seq<Spec>, offer: Octets, score: Score) {
    exists spec :: spec in specs && Matches(spec, offer) && ScoreOf(spec) == score
  }

  ghost predicate NoneBetter(specs: seq<Spec>, offers: seq<Octets>, score: Score) {
    forall offer, spec :: offer in offers && spec in specs && Matches(spec, offer) ==> !Better(ScoreOf(spec), score)
  }

  /** The k-th offer attains the best score of all, and no earlier one does. */
  ghost predicate IsFirstBest(specs: seq<Spec>, offers: seq<Octets>, k: int, score: Score) {
    && 0 <= k < |offers| && Attains(specs, offers[k], score)
    && NoneBetter(specs, offers, score)
    && forall j :: 0 <= j < k ==> !Attains(specs, offers[j], score)
  }

  ghost predicate NothingMatches(specs: seq<Spec>, offers: seq<Octets>) {
    forall offer, spec :: offer in offers && spec in specs ==> !Matches(spec, offer)
  }

  ghost predicate IsAnswer(specs: seq<Spec>, offers: seq<Octets>, default: Octets, answer: Octets) {
    if NothingMatches(specs, offers) then answer == default
    else exists k, score :: IsFirstBest(specs, offers, k, score) && answer == offers[k]
  }

  /** No weight that matches an offer is a NaN. */
  ghost predicate NoNaN(specs: seq<Spec>, offers: seq<Octets>) {
    forall spec, offer :: spec in specs && offer in offers && Matches(spec, offer) ==> spec.q != NaN
  }

  lemma ScoresAreOrdered(a: Score, b: Score)
    requires a.q != NaN && b.q != NaN && !Better(a, b) && !Better(b, a)
    ensures a == b
  {
  }

  /** There is at most one answer, and only which specs there are matters to it: neither
      their order nor their repetition. */
  lemma AnswerIsUnique(specs1: seq<Spec>, specs2: seq<Spec>, offers: seq<Octets>, default: Octets, a: Octets, b: Octets)
    requires NoNaN(specs1, offers) && forall spec :: spec in specs1 <==> spec in specs2
    requires IsAnswer(specs1, offers, default, a) && IsAnswer(specs2, offers, default, b)
    ensures a == b
  {
    if !NothingMatches(specs1, offers) {
      var k1, s1 :| IsFirstBest(specs1, offers, k1, s1) && a == offers[k1];
      var k2, s2 :| IsFirstBest(specs2, offers, k2, s2) && b == offers[k2];
      SameScore(specs1, specs2, offers, k1, s1, k2, s2);
      assert Attains(specs2, offers[k1], s1) && Attains(specs1, offers[k2], s1);
    }
  }

  lemma SameScore(specs1: seq<Spec>, specs2: seq<Spec>, offers: seq<Octets>, k1: int, s1: Score, k2: int, s2: Score)
    requires NoNaN(specs1, offers) && forall spec :: spec in specs1 <==> spec in specs2
    requires IsFirstBest(specs1, offers, k1, s1) && IsFirstBest(specs2, offers, k2, s2)
    ensures s1 == s2
  {
    assert offers[k1] in offers && offers[k2] in offers;
    var spec1 :| spec1 in specs1 && Matches(spec1, offers[k1]) && ScoreOf(spec1) == s1;
    var spec2 :| spec2 in specs2 && Matches(spec2, offers[k2]) && ScoreOf(spec2) == s2;
    ScoresAreOrdered(s1, s2);
  }

  // ---------- the loops ----------

  datatype Best = Best(score: Score, offer: Octets)

  const UNMATCHED := Score(Num(-1.0), 3)

  /** The comparisons of the switch. */
  predicate Beats(a: Score, b: Score) {
    !Less(a.q, b.q) && (Less(b.q, a.q) || a.wild < b.wild)
  }

  lemma BeatsIsBetter(a: Score, b: Score)
    requires a.q != NaN && b.q != NaN
    ensures Beats(a, b) <==> Better(a, b)
  {
  }

  function Step(best: Best, spec: Spec, offer: Octets): Best {
    if Matches(spec, offer) && Beats(ScoreOf(spec), best.score) then Best(ScoreOf(spec), offer) else best
  }

  function Row(best: Best, specs: seq<Spec>, offer: Octets): Best {
    if specs == [] then best
    else Step(Row(best, specs[..|specs| - 1], offer), specs[|specs| - 1], offer)
  }

  function Sweep(specs: seq<Spec>, offers: seq<Octets>, default: Octets): Best {
    if offers == [] then Best(UNMATCHED, default)
    else Row(Sweep(specs, offers[..|offers| - 1], default), specs, offers[|offers| - 1])
  }

  /** What the loops answer, whatever the weights. */
  function Choose(specs: seq<Spec>, offers: seq<Octets>, default: Octets): Octets {
    Sweep(specs, offers, default).offer
  }

  /** What the parser guarantees of its weights. */
  predicate NonNegative(specs: seq<Spec>) {
    forall i :: 0 <= i < |specs| ==> !IsNegative(specs[i].q)
  }

  lemma RowAppend(best: Best, specs: seq<Spec>, spec: Spec, offer: Octets)
    ensures Row(best, specs + [spec], offer) == Step(Row(best, specs, offer), spec, offer)
  {
    assert (specs + [spec])[..|specs|] == specs;
  }

  lemma SweepAppend(specs: seq<Spec>, offers: seq<Octets>, offer: Octets, default: Octets)
    ensures Sweep(specs, offers + [offer], default) == Row(Sweep(specs, offers, default), specs, offer)
  {
    assert (offers + [offer])[..|offers|] == offers;
  }

  // ---------- the loops find the answer ----------

  /** What the loops have seen: the specs of every offer before the m-th, and the first j
      specs of the m-th. */
  ghost predicate Seen(offers: seq<Octets>, specs: seq<Spec>, m: nat, j: nat, o: int, i: int) {
    0 <= o < |offers| && 0 <= i < |specs| && (o < m || (o == m && i < j))
  }

  /** The best so far is the earliest among the best of what was seen. */
  ghost predicate BestSoFar(offers: seq<Octets>, specs: seq<Spec>, default: Octets, m: nat, j: nat,
                            best: Score, bestOffer: Octets) {
    if best == UNMATCHED then
      bestOffer == default
      && forall o, i :: Seen(offers, specs, m, j, o, i) ==> !Matches(specs[i], offers[o])
    else exists o, i :: IsBestAt(offers, specs, m, j, best, o, i) && bestOffer == offers[o]
  }

  ghost predicate IsBestAt(offers: seq<Octets>, specs: seq<Spec>, m: nat, j: nat, best: Score, o: int, i: int) {
    && Seen(offers, specs, m, j, o, i) && Matches(specs[i], offers[o]) && ScoreOf(specs[i]) == best
    && (forall p, k :: Seen(offers, specs, m, j, p, k) && Matches(specs[k], offers[p]) ==>
          !Better(ScoreOf(specs[k]), best) && (p < o ==> ScoreOf(specs[k]) != best))
  }

  lemma NothingSeen(offers: seq<Octets>, specs: seq<Spec>, default: Octets)
    ensures BestSoFar(offers, specs, default, 0, 0, UNMATCHED, default)
  {
  }

  lemma SeenOneMore(offers: seq<Octets>, specs: seq<Spec>, m: nat, j: nat)
    requires m < |offers| && j < |specs|
    ensures forall o, i {:trigger Seen(offers, specs, m, j + 1, o, i)} {:trigger Seen(offers, specs, m, j, o, i)} ::
              Seen(offers, specs, m, j + 1, o, i) <==> Seen(offers, specs, m, j, o, i) || (o == m && i == j)
  {
  }

  lemma OneStep(offers: seq<Octets>, specs: seq<Spec>, default: Octets, m: nat, j: nat, best: Best)
    requires m < |offers| && j < |specs| && NonNegative(specs) && NoNaN(specs, offers)
    requires BestSoFar(offers, specs, default, m, j, best.score, best.offer)
    ensures var next := Step(best, specs[j], offers[m]);
            BestSoFar(offers, specs, default, m, j + 1, next.score, next.offer)
  {
    SeenOneMore(offers, specs, m, j);
    var next := Step(best, specs[j], offers[m]);
    assert offers[m] in offers;
    if best.score == UNMATCHED {
      if next != best {
        assert IsBestAt(offers, specs, m, j + 1, next.score, m, j);
      }
    } else {
      var o, i :| IsBestAt(offers, specs, m, j, best.score, o, i) && best.offer == offers[o];
      assert offers[o] in offers;
      if next != best {
        BeatsIsBetter(ScoreOf(specs[j]), best.score);
        assert IsBestAt(offers, specs, m, j + 1, next.score, m, j);
      } else {
        if Matches(specs[j], offers[m]) { BeatsIsBetter(ScoreOf(specs[j]), best.score); }
        assert IsBestAt(offers, specs, m, j + 1, best.score, o, i);
      }
    }
  }

  lemma NextOffer(offers: seq<Octets>, specs: seq<Spec>, default: Octets, m: nat, best: Score, bestOffer: Octets)
    requires m < |offers| && BestSoFar(offers, specs, default, m, |specs|, best, bestOffer)
    ensures BestSoFar(offers, specs, default, m + 1, 0, best, bestOffer)
  {
    assert forall o, i
        {:trigger Seen(offers, specs, m + 1, 0, o, i)} {:trigger Seen(offers, specs, m, |specs|, o, i)} ::
        Seen(offers, specs, m + 1, 0, o, i) <==> Seen(offers, specs, m, |specs|, o, i);
    if best != UNMATCHED {
      var o, i :| IsBestAt(offers, specs, m, |specs|, best, o, i) && bestOffer == offers[o];
      assert IsBestAt(offers, specs, m + 1, 0, best, o, i);
    }
  }

  lemma AllLookedAt(offers: seq<Octets>, specs: seq<Spec>, default: Octets, best: Score, bestOffer: Octets)
    requires BestSoFar(offers, specs, default, |offers|, 0, best, bestOffer)
    ensures IsAnswer(specs, offers, default, bestOffer)
  {
    var n := |offers|;
    forall offer, spec | offer in offers && spec in specs
      ensures exists o, i :: Seen(offers, specs, n, 0, o, i) && offers[o] == offer && specs[i] == spec
    {
      var o :| 0 <= o < n && offers[o] == offer;
      var i :| 0 <= i < |specs| && specs[i] == spec;
      assert Seen(offers, specs, n, 0, o, i);
    }
    if best != UNMATCHED {
      var o, i :| IsBestAt(offers, specs, n, 0, best, o, i) && bestOffer == offers[o];
      assert Attains(specs, offers[o], best);
      forall p | 0 <= p < o ensures !Attains(specs, offers[p], best) {
        forall spec | spec in specs && Matches(spec, offers[p]) ensures ScoreOf(spec) != best {
          var k :| 0 <= k < |specs| && specs[k] == spec;
          assert Seen(offers, specs, n, 0, p, k);
        }
      }
      assert IsFirstBest(specs, offers, o, best);
    }
  }

  lemma {:induction false} RowSoFar(offers: seq<Octets>, specs: seq<Spec>, default: Octets, m: nat, j: nat)
    requires m < |offers| && j <= |specs| && NonNegative(specs) && NoNaN(specs, offers)
    ensures var best := Row(Sweep(specs, offers[..m], default), specs[..j], offers[m]);
            BestSoFar(offers, specs, default, m, j, best.score, best.offer)
    decreases m, j, 1
  {
    if j == 0 {
      SweepSoFar(offers, specs, default, m);
    } else {
      RowSoFar(offers, specs, default, m, j - 1);
      assert specs[..j][..j - 1] == specs[..j - 1];
      OneStep(offers, specs, default, m, j - 1, Row(Sweep(specs, offers[..m], default), specs[..j - 1], offers[m]));
    }
  }

  lemma {:induction false} SweepSoFar(offers: seq<Octets>, specs: seq<Spec>, default: Octets, m: nat)
    requires m <= |offers| && NonNegative(specs) && NoNaN(specs, offers)
    ensures var best := Sweep(specs, offers[..m], default);
            BestSoFar(offers, specs, default, m, 0, best.score, best.offer)
    decreases m, 0, 0
  {
    if m == 0 {
      NothingSeen(offers, specs, default);
    } else {
      RowSoFar(offers, specs, default, m - 1, |specs|);
      assert offers[..m][..m - 1] == offers[..m - 1] && specs[..|specs|] == specs;
      var best := Sweep(specs, offers[..m], default);
      NextOffer(offers, specs, default, m - 1, best.score, best.offer);
    }
  }

  /** As long as no weight that matches is a NaN, the loops find the answer. */
  lemma ChooseIsAnswer(specs: seq<Spec>, offers: seq<Octets>, default: Octets)
    requires NonNegative(specs) && NoNaN(specs, offers)
    ensures IsAnswer(specs, offers, default, Choose(specs, offers, default))
  {
    SweepSoFar(offers, specs, default, |offers|);
    assert offers[..|offers|] == offers;
    var best := Sweep(specs, offers, default);
    AllLookedAt(offers, specs, default, best.score, best.offer);
  }

  /** A NaN among them makes the answer depend on the order of the specs. */
  lemma OrderMattersWithNaN(a: Octets, b: Octets, x: real, default: Octets)
    requires x > 1.0 && a != b && a != "*/*" && b != "*/*" && !HasSuffix(a, "/*") && !HasSuffix(b, "/*")
    ensures var nan, one, more := Spec(a, NaN), Spec(a, Num(1.0)), Spec(b, Num(x));
            Choose([nan, one, more], [a, b], default) == a && Choose([one, nan, more], [a, b], default) == b
  {
    var nan, one, more := Spec(a, NaN), Spec(a, Num(1.0)), Spec(b, Num(x));
    var start := Best(UNMATCHED, default);
    RowOfThree(start, nan, one, more, a);
    RowOfThree(Best(Score(NaN, 0), a), nan, one, more, b);
    SweepOfTwo([nan, one, more], a, b, default);
    RowOfThree(start, one, nan, more, a);
    RowOfThree(Best(Score(Num(1.0), 0), a), one, nan, more, b);
    SweepOfTwo([one, nan, more], a, b, default);
  }

  lemma RowOfThree(best: Best, s: Spec, t: Spec, u: Spec, offer: Octets)
    ensures Row(best, [s, t, u], offer) == Step(Step(Step(best, s, offer), t, offer), u, offer)
  {
    RowAppend(best, [], s, offer);
    RowAppend(best, [s], t, offer);
    RowAppend(best, [s, t], u, offer);
    assert [] + [s] == [s] && [s] + [t] == [s, t] && [s, t] + [u] == [s, t, u];
  }

  lemma SweepOfTwo(specs: seq<Spec>, a: Octets, b: Octets, default: Octets)
    ensures Sweep(specs, [a, b], default) == Row(Row(Best(UNMATCHED, default), specs, a), specs, b)
  {
    SweepAppend(specs, [], a, default);
    SweepAppend(specs, [a], b, default);
    assert [] + [a] == [a] && [a] + [b] == [a, b];
  }

  /** The switch in the inner loop: is this match of spec and offer a better one? */
  method IsBetterMatch(spec: Spec, offer: Octets, bestQ: Float, bestWild: nat) returns (better: bool, wild: nat)
    ensures better <==> Matches(spec, offer) && Beats(ScoreOf(spec), Score(bestQ, bestWild))
    ensures better ==> wild == Wildness(spec)
  {
    better, wild := false, 0;
    if spec.q == Num(0.0) {
    } else if Less(spec.q, bestQ) {
    } else if spec.value == "*/*" {
      better, wild := Less(bestQ, spec.q) || bestWild > 2, 2;
    } else if HasSuffix(spec.value, "/*") {
      better := spec.value[..|spec.value| - 1] <= offer && (Less(bestQ, spec.q) || bestWild > 1);
      wild := 1;
    } else {
      better := spec.value == offer && (Less(bestQ, spec.q) || bestWild > 0);
    }
  }

  method NegotiateContentType(types: array<OctetType>, accept: seq<Octets>, offers: seq<Octets>, default: Octets)
    returns (bestOffer: Octets)
    requires Classifies(types)
    ensures bestOffer == Choose(Header(accept), offers, default)
    ensures NoNaN(Header(accept), offers) ==> IsAnswer(Header(accept), offers, default, bestOffer)
  {
    bestOffer := default;
    var bestQ, bestWild := Num(-1.0), 3;
    var specs := ParseAccept(types, accept);
    for m := 0 to |offers|
      invariant Best(Score(bestQ, bestWild), bestOffer) == Sweep(specs, offers[..m], default)
    {
      var offer := offers[m];
      for j := 0 to |specs|
        invariant Best(Score(bestQ, bestWild), bestOffer) == Row(Sweep(specs, offers[..m], default), specs[..j], offer)
      {
        assert specs[..j + 1][..j] == specs[..j];
        var better, wild := IsBetterMatch(specs[j], offer, bestQ, bestWild);
        if better {
          bestQ, bestWild, bestOffer := specs[j].q, wild, offer;
        }
      }
      assert offers[..m + 1][..m] == offers[..m] && specs[..|specs|] == specs;
    }
    assert offers[..|offers|] == offers;
    HeaderWeights(accept);
    if NoNaN(specs, offers) { ChooseIsAnswer(specs, offers, default); }
  }

  // ---------- weights of 0 ----------

  function WithoutZeros(specs: seq<Spec>): seq<Spec> {
    if specs == [] then []
    else WithoutZeros(specs[..|specs| - 1])
         + if specs[|specs| - 1].q == Num(0.0) then [] else [specs[|specs| - 1]]
  }

  lemma {:induction false} RowIgnoresZeros(best: Best, specs: seq<Spec>, offer: Octets)
    ensures Row(best, WithoutZeros(specs), offer) == Row(best, specs, offer)
  {
    if specs != [] {
      var front, last := specs[..|specs| - 1], specs[|specs| - 1];
      RowIgnoresZeros(best, front, offer);
      if last.q == Num(0.0) {
        assert WithoutZeros(specs) == WithoutZeros(front);
      } else {
        assert WithoutZeros(specs)[..|WithoutZeros(front)|] == WithoutZeros(front);
      }
    }
  }

  /** A weight of 0 is no veto, for any header and offers: leaving out every spec that has
      one changes no answer. Section 12.5.1 of RFC 9110 would have it exclude. */
  lemma {:induction false} ZeroWeightsAreIgnored(specs: seq<Spec>, offers: seq<Octets>, default: Octets)
    ensures Sweep(WithoutZeros(specs), offers, default) == Sweep(specs, offers, default)
    ensures Choose(WithoutZeros(specs), offers, default) == Choose(specs, offers, default)
  {
    if offers != [] {
      var front := offers[..|offers| - 1];
      ZeroWeightsAreIgnored(specs, front, default);
      RowIgnoresZeros(Sweep(specs, front, default), specs, offers[|offers| - 1]);
    }
  }

  /** The header names this offer with a weight of 0. */
  predicate Refused(specs: seq<Spec>, offer: Octets) {
    Spec(offer, Num(0.0)) in specs
  }

  /** The spec matches the k-th offer, and no other offer attains a better score, nor an
      earlier one the same. */
  ghost predicate Wins(specs: seq<Spec>, offers: seq<Octets>, k: int, spec: Spec) {
    && 0 <= k < |offers| && spec in specs && Matches(spec, offers[k])
    && forall p, other :: 0 <= p < |offers| && other in specs && Matches(other, offers[p]) ==>
         !Better(ScoreOf(other), ScoreOf(spec)) && (p < k ==> ScoreOf(other) != ScoreOf(spec))
  }

  /** A refused offer is answered all the same, exactly when some other spec, of non-zero
      weight, makes it win. */
  lemma RefusedIsChosen(specs: seq<Spec>, offers: seq<Octets>, default: Octets, offer: Octets)
    requires NonNegative(specs) && NoNaN(specs, offers) && Refused(specs, offer) && offer != default
    ensures Choose(specs, offers, default) == offer
        <==> exists k, spec :: Wins(specs, offers, k, spec) && offers[k] == offer
    ensures forall k, spec :: Wins(specs, offers, k, spec) ==> spec.q != Num(0.0)
  {
    ChooseIsAnswer(specs, offers, default);
    if Choose(specs, offers, default) == offer {
      var k, score :| IsFirstBest(specs, offers, k, score) && offers[k] == offer;
      var spec :| spec in specs && Matches(spec, offers[k]) && ScoreOf(spec) == score;
      forall p, other | 0 <= p < |offers| && other in specs && Matches(other, offers[p])
        ensures !Better(ScoreOf(other), ScoreOf(spec)) && (p < k ==> ScoreOf(other) != ScoreOf(spec))
      {
        assert offers[p] in offers;
        if p < k { assert !Attains(specs, offers[p], score); }
      }
      assert Wins(specs, offers, k, spec);
    }
    if k, spec :| Wins(specs, offers, k, spec) && offers[k] == offer {
      WinnerIsFirstBest(specs, offers, k, spec);
      assert Matches(spec, offers[k]) && offers[k] in offers;
      assert IsAnswer(specs, offers, default, offer);
      AnswerIsUnique(specs, specs, offers, default, offer, Choose(specs, offers, default));
    }
  }

  lemma WinnerIsFirstBest(specs: seq<Spec>, offers: seq<Octets>, k: int, spec: Spec)
    requires Wins(specs, offers, k, spec)
    ensures IsFirstBest(specs, offers, k, ScoreOf(spec))
  {
    assert Attains(specs, offers[k], ScoreOf(spec));
    forall offer, other | offer in offers && other in specs && Matches(other, offer)
      ensures !Better(ScoreOf(other), ScoreOf(spec))
    {
      var p :| 0 <= p < |offers| && offers[p] == offer;
    }
  }

  /** With one offer, any match of non-zero weight selects it: a wildcard does, whatever
      else the header says of that offer. */
  lemma SingleOffer(specs: seq<Spec>, offer: Octets, default: Octets)
    requires NonNegative(specs) && offer != default
    ensures Choose(specs, [offer], default) == offer <==> exists spec :: spec in specs && Matches(spec, offer)
  {
    SweepAppend(specs, [], offer, default);
    assert [] + [offer] == [offer];
    RowSelects(specs, offer, default);
  }

  lemma {:induction false} RowSelects(specs: seq<Spec>, offer: Octets, default: Octets)
    requires NonNegative(specs) && offer != default
    ensures var best := Row(Best(UNMATCHED, default), specs, offer);
            if exists spec :: spec in specs && Matches(spec, offer) then best.offer == offer
            else best == Best(UNMATCHED, default)
  {
    if specs != [] {
      var front, last := specs[..|specs| - 1], specs[|specs| - 1];
      RowSelects(front, offer, default);
      assert specs == front + [last];
      assert last in specs;
    }
  }
}
