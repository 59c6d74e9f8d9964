/**
  The set validator behind submit-set: a claimed triple is accepted when the
  numbers are three distinct card identifiers, all three are on the grid, and
  each of the four attributes is all-same or all-different across them. The
  claim is taken as already parsed into three integers.
*/
module Validator {
  import opened Cards
  import opened Hands

  /** Three card identifiers a player claims form a set. */
  datatype Claim = Claim(first: int, second: int, third: int)

  /** Every identifier is a card and no two are the same. */
  predicate NumbersOk(t: Claim)
  {
    1 <= t.first <= 81 && 1 <= t.second <= 81 && 1 <= t.third <= 81 &&
    t.first != t.second && t.second != t.third && t.first != t.third
  }

  /** All three claimed cards are on the grid. */
  predicate CardsInHand(t: Claim, h: Hand)
  {
    InHand(h, t.first) && InHand(h, t.second) && InHand(h, t.third)
  }

  /** Every attribute passes the all-same-or-all-different test. */
  predicate SetOk(t: Claim)
    requires NumbersOk(t)
  {
    AttributesFormSet(t.first, t.second, t.third)
  }

  /** The whole check, tests in the source's order; it reads the grid only. */
  predicate IsSet(t: Claim, h: Hand)
  {
    NumbersOk(t) && CardsInHand(t, h) && SetOk(t)
  }

  /** The cards a claim names, as a set. */
  function ClaimCards(t: Claim): (cs: set<int>)
  {
    {t.first, t.second, t.third}
  }

  /** The values one attribute takes across three cards. */
  function ValuesOf(f: Feature, a: int, b: int, c: int): (vs: set<int>)
    requires IsCard(a) && IsCard(b) && IsCard(c)
  {
    {Attr(f, a), Attr(f, b), Attr(f, c)}
  }

  /** Three values make a set of size 1 when all equal, 3 when pairwise
      distinct, and 2 otherwise. */
  lemma SizeOfThree(x: int, y: int, z: int)
    ensures x == y == z ==> |{x, y, z}| == 1
    ensures x != y && y != z && x != z ==> |{x, y, z}| == 3
    ensures (x == y || y == z || x == z) && !(x == y == z) ==> |{x, y, z}| == 2
  {
    if x == y {
      assert {x, y, z} == {x, z};
    } else if y == z {
      assert {x, y, z} == {x, y};
    } else if x == z {
      assert {x, y, z} == {x, y};
    }
  }

  /** The per-attribute test accepts exactly when the attribute does not take
      precisely two distinct values. */
  lemma FeatureOkIffNotTwoValues(x: int, y: int, z: int)
    ensures FeatureOk(x, y, z) <==> |{x, y, z}| != 2
  {
    SizeOfThree(x, y, z);
  }

  /**
    An independent reading of the validator: a claim is accepted iff it names
    three different cards, each a card identifier on the grid, and no
    attribute takes exactly two distinct values among them.
  */
  lemma IsSetCharacterization(t: Claim, h: Hand)
    ensures IsSet(t, h) <==>
              && |ClaimCards(t)| == 3
              && (forall c :: c in ClaimCards(t) ==> 1 <= c <= 81 && c in h)
              && (forall f: Feature :: |ValuesOf(f, t.first, t.second, t.third)| != 2)
  {
    SizeOfThree(t.first, t.second, t.third);
    var inRange := forall c :: c in ClaimCards(t) ==> 1 <= c <= 81 && c in h;
    assert inRange <==> 1 <= t.first <= 81 && 1 <= t.second <= 81 && 1 <= t.third <= 81 && CardsInHand(t, h);
    if NumbersOk(t) {
      var a, b, c := t.first, t.second, t.third;
      forall f: Feature ensures FeatureOk(Attr(f, a), Attr(f, b), Attr(f, c)) <==> |ValuesOf(f, a, b, c)| != 2 {
        FeatureOkIffNotTwoValues(Attr(f, a), Attr(f, b), Attr(f, c));
      }
      assert SetOk(t) <==> forall f: Feature :: FeatureOk(Attr(f, a), Attr(f, b), Attr(f, c)) by {
        assert Attr(Count, a) == CountOf(a) && Attr(Color, a) == ColorOf(a);
        assert Attr(Shape, a) == ShapeOf(a) && Attr(Fill, a) == FillOf(a);
      }
    }
  }

  /** The value a third card must take on an attribute, given two others. */
  function CompleteValue(x: int, y: int): (z: int)
    requires 1 <= x <= 3 && 1 <= y <= 3
    ensures 1 <= z <= 3
    ensures FeatureOk(x, y, z)
    ensures forall w :: 1 <= w <= 3 && FeatureOk(x, y, w) ==> w == z
  {
    if x == y then x else 6 - x - y
  }

  /** The unique card completing a set with two given cards. */
  function ThirdCard(a: int, b: int): (c: int)
    requires IsCard(a) && IsCard(b)
    ensures IsCard(c)
  {
    CardOf(Attributes(
      CompleteValue(CountOf(a), CountOf(b)),
      CompleteValue(ColorOf(a), ColorOf(b)),
      CompleteValue(ShapeOf(a), ShapeOf(b)),
      CompleteValue(FillOf(a), FillOf(b))))
  }

  /** Any two different cards are completed to a set by exactly one third
      card, and that card differs from both. */
  lemma ThirdCardUnique(a: int, b: int, c: int)
    requires IsCard(a) && IsCard(b) && IsCard(c) && a != b
    ensures AttributesFormSet(a, b, ThirdCard(a, b))
    ensures ThirdCard(a, b) != a && ThirdCard(a, b) != b
    ensures AttributesFormSet(a, b, c) ==> c == ThirdCard(a, b)
  {
    var attrs := Attributes(
      CompleteValue(CountOf(a), CountOf(b)),
      CompleteValue(ColorOf(a), ColorOf(b)),
      CompleteValue(ShapeOf(a), ShapeOf(b)),
      CompleteValue(FillOf(a), FillOf(b)));
    var t := ThirdCard(a, b);
    AttributesOfCard(attrs);
    assert AttributesOf(t) == attrs;
    AttributesInjective(a, b);
    assert AttributesOf(a) != AttributesOf(b);
    assert attrs != AttributesOf(a) && attrs != AttributesOf(b);
    if AttributesFormSet(a, b, c) {
      assert AttributesOf(c) == attrs;
      AttributesInjective(c, t);
    }
  }

  /** A claim of the aligned triple 3k+1, 3k+2, 3k+3 is accepted whenever
      the three cards are on the grid. */
  lemma AlignedClaimIsSet(a: int, h: Hand)
    requires IsCard(a) && a + 2 <= 81 && (a - 1) % 3 == 0
    requires a in h && a + 1 in h && a + 2 in h
    ensures IsSet(Claim(a, a + 1, a + 2), h)
  {
    AlignedTripleFormsSet(a);
  }
}
