/**
  The card model of the Set deck: a card is an identifier 1..81 and its four
  ternary attributes (count, color, shape, fill) are derived arithmetically.
  The source uses JavaScript `%` and `Math.ceil(n / k)`; every operand here is
  non-negative, so truncating `%` agrees with Dafny's Euclidean `%`, and the
  ceiling of a positive quotient is `(n + k - 1) / k`.
*/
module Cards {

  /** An identifier of one card of the single 81-card deck. */
  predicate IsCard(n: int)
  {
    1 <= n <= 81
  }

  /** The four attributes a card carries. */
  datatype Feature = Count | Color | Shape | Fill

  /** `Math.ceil(n / k)` for a positive numerator and divisor. */
  function CeilDiv(n: int, k: int): (r: int)
    requires n >= 1 && k >= 1
    ensures r >= 1
  {
    (n + k - 1) / k
  }

  /** `CeilDiv` is the ceiling of the exact quotient: the least r with
      n <= r * k. Kept out of the function's own contract so that the
      nonlinear bound is only in scope where it is asked for. */
  lemma CeilDivIsCeiling(n: int, k: int)
    requires n >= 1 && k >= 1
    ensures (CeilDiv(n, k) - 1) * k < n <= CeilDiv(n, k) * k
  {
    var r := CeilDiv(n, k);
    var q, m := (n + k - 1) / k, (n + k - 1) % k;
    assert n + k - 1 == q * k + m && 0 <= m < k;
    assert r == q;
    assert r * k == n + k - 1 - m;
  }

  function CountOf(n: int): (v: int)
    requires IsCard(n)
    ensures 1 <= v <= 3
  {
    (n - 1) % 3 + 1
  }

  /** 1 = red, 2 = purple, 3 = green. */
  function ColorOf(n: int): (v: int)
    requires IsCard(n)
    ensures 1 <= v <= 3
  {
    (CeilDiv(n, 3) - 1) % 3 + 1
  }

  /** 1 = squiggle, 2 = diamond, 3 = oval. */
  function ShapeOf(n: int): (v: int)
    requires IsCard(n)
    ensures 1 <= v <= 3
  {
    (CeilDiv(n, 9) - 1) % 3 + 1
  }

  /** 1 = filled, 2 = shaded, 3 = open. */
  function FillOf(n: int): (v: int)
    requires IsCard(n)
    ensures 1 <= v <= 3
  {
    (CeilDiv(n, 27) - 1) % 3 + 1
  }

  function Attr(f: Feature, n: int): (v: int)
    requires IsCard(n)
    ensures 1 <= v <= 3
  {
    match f
    case Count => CountOf(n)
    case Color => ColorOf(n)
    case Shape => ShapeOf(n)
    case Fill => FillOf(n)
  }

  /** The attribute tuple of a card, (count, color, shape, fill). */
  datatype Attributes = Attributes(count: int, color: int, shape: int, fill: int)
  {
    predicate Valid() {
      1 <= count <= 3 && 1 <= color <= 3 && 1 <= shape <= 3 && 1 <= fill <= 3
    }
  }

  function AttributesOf(n: int): (a: Attributes)
    requires IsCard(n)
    ensures a.Valid()
  {
    Attributes(CountOf(n), ColorOf(n), ShapeOf(n), FillOf(n))
  }

  /** The card carrying a given attribute tuple: the attributes are the
      base-3 digits of `n - 1`, count least significant. */
  function CardOf(a: Attributes): (n: int)
    requires a.Valid()
    ensures IsCard(n)
  {
    (a.count - 1) + 3 * (a.color - 1) + 9 * (a.shape - 1) + 27 * (a.fill - 1) + 1
  }

  /** Each attribute of card `n` is one base-3 digit of `n - 1`. */
  lemma AttributesAreDigits(n: int)
    requires IsCard(n)
    ensures CountOf(n) - 1 == (n - 1) % 3
    ensures ColorOf(n) - 1 == ((n - 1) / 3) % 3
    ensures ShapeOf(n) - 1 == ((n - 1) / 9) % 3
    ensures FillOf(n) - 1 == (n - 1) / 27
  {
    var m: int := n - 1;
    assert CeilDiv(n, 3) == m / 3 + 1;
    assert CeilDiv(n, 9) == m / 9 + 1;
    assert CeilDiv(n, 27) == m / 27 + 1;
  }

  /** Decoding the attributes recovers the card: the encoding is injective. */
  lemma CardOfAttributes(n: int)
    requires IsCard(n)
    ensures CardOf(AttributesOf(n)) == n
  {
    AttributesAreDigits(n);
    var m: int := n - 1;
    assert m == 3 * (m / 3) + m % 3;
    assert m / 3 == 3 * (m / 9) + (m / 3) % 3;
    assert m / 9 == 3 * (m / 27) + (m / 9) % 3;
  }

  /** Euclidean division by three is determined by quotient and digit. */
  lemma DivModThree(m: int, q: int, d: int)
    requires 0 <= d < 3 && m == 3 * q + d
    ensures m / 3 == q && m % 3 == d
  {
  }

  /** Four base-3 digits read back from the number they spell. */
  lemma DigitsOf(d0: int, d1: int, d2: int, d3: int)
    requires 0 <= d0 < 3 && 0 <= d1 < 3 && 0 <= d2 < 3 && 0 <= d3 < 3
    ensures var m := d0 + 3 * d1 + 9 * d2 + 27 * d3;
            m % 3 == d0 && (m / 3) % 3 == d1 && (m / 9) % 3 == d2 && m / 27 == d3
  {
    var q2: int := d2 + 3 * d3;
    var q1: int := d1 + 3 * q2;
    var m: int := d0 + 3 * q1;
    DivModThree(m, q1, d0);
    DivModThree(q1, q2, d1);
    DivModThree(q2, d3, d2);
    NestedDivision(m);
  }

  /** Every attribute tuple in {1,2,3}^4 is carried by a card: the encoding
      is onto, hence a bijection between 1..81 and {1,2,3}^4. */
  lemma AttributesOfCard(a: Attributes)
    requires a.Valid()
    ensures AttributesOf(CardOf(a)) == a
  {
    var n := CardOf(a);
    AttributesAreDigits(n);
    DigitsOf(a.count - 1, a.color - 1, a.shape - 1, a.fill - 1);
  }

  lemma NestedDivision(m: nat)
    ensures m / 9 == (m / 3) / 3
    ensures m / 27 == ((m / 3) / 3) / 3
  {
  }

  lemma AttributesInjective(n1: int, n2: int)
    requires IsCard(n1) && IsCard(n2)
    ensures AttributesOf(n1) == AttributesOf(n2) ==> n1 == n2
  {
    CardOfAttributes(n1);
    CardOfAttributes(n2);
  }

  /**
    The per-attribute test of the validator: the three values are all equal or
    pairwise distinct; exactly two equal is rejected. Written as the source's
    cascade of tests.
  */
  predicate FeatureOk(x: int, y: int, z: int)
  {
    if x == y && y == z then true
    else if x == y || y == z || x == z then false
    else true
  }

  /** The cascade is "all same or all different". */
  lemma FeatureOkMeaning(x: int, y: int, z: int)
    ensures FeatureOk(x, y, z) <==> (x == y == z) || (x != y && y != z && x != z)
  {
  }

  /** On ternary values, the test is the classic "sum divisible by three". */
  lemma FeatureOkIffSumDivisible(x: int, y: int, z: int)
    requires 1 <= x <= 3 && 1 <= y <= 3 && 1 <= z <= 3
    ensures FeatureOk(x, y, z) <==> (x + y + z) % 3 == 0
  {
  }

  /** `setOk`: the count, color, shape and fill tests all pass. */
  predicate AttributesFormSet(a: int, b: int, c: int)
    requires IsCard(a) && IsCard(b) && IsCard(c)
  {
    FeatureOk(CountOf(a), CountOf(b), CountOf(c)) &&
    FeatureOk(ColorOf(a), ColorOf(b), ColorOf(c)) &&
    FeatureOk(ShapeOf(a), ShapeOf(b), ShapeOf(c)) &&
    FeatureOk(FillOf(a), FillOf(b), FillOf(c))
  }

  /** Moving less than three up from a card 3k+1 changes only the lowest
      base-3 digit of `n - 1`. */
  lemma SameUpperDigits(a: int, i: int)
    requires a >= 1 && (a - 1) % 3 == 0 && 0 <= i < 3
    ensures (a + i - 1) % 3 == i
    ensures (a + i - 1) / 3 == (a - 1) / 3
    ensures (a + i - 1) / 9 == (a - 1) / 9
    ensures (a + i - 1) / 27 == (a - 1) / 27
  {
    var m: int := a - 1;
    var q := m / 3;
    DivModThree(m, q, 0);
    DivModThree(m + i, q, i);
    assert a + i - 1 == m + i;
    NestedDivision(m);
    NestedDivision(m + i);
  }

  /** Within an aligned triple 3k+1, 3k+2, 3k+3 only the count moves. */
  lemma WithinAlignedTriple(a: int, i: int)
    requires IsCard(a) && a + 2 <= 81 && (a - 1) % 3 == 0 && 0 <= i < 3
    ensures CountOf(a + i) == i + 1
    ensures ColorOf(a + i) == ColorOf(a) && ShapeOf(a + i) == ShapeOf(a) && FillOf(a + i) == FillOf(a)
  {
    AttributesAreDigits(a);
    AttributesAreDigits(a + i);
    SameUpperDigits(a, i);
  }

  /** Cards 3k+1, 3k+2 and 3k+3 share color, shape and fill and take
      the three counts, so they form a set. */
  lemma AlignedTripleFormsSet(a: int)
    requires IsCard(a) && a + 2 <= 81 && (a - 1) % 3 == 0
    ensures CountOf(a) == 1 && CountOf(a + 1) == 2 && CountOf(a + 2) == 3
    ensures AttributesFormSet(a, a + 1, a + 2)
  {
    WithinAlignedTriple(a, 0);
    WithinAlignedTriple(a, 1);
    WithinAlignedTriple(a, 2);
  }
}
