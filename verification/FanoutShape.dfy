/** internal/hydrate/fanout.go: what the recorded facts of a reference become, from the facts
    themselves to the counts that are handed out. */
module FanoutShapes {
  import opened Fanouts
  import opened Numbers
  import opened Sums
  import opened Wrappers

  // ----- the facts -----

  /** Facts that are usable and in order are taken as they are. */
  lemma FactsSurvive(fo: Fanout, childN: int, parentN: int)
    requires parentN >= 1 && fo.mean > 0.0 && 0.0 < fo.p50 <= fo.p95 <= fo.max
    ensures FanoutFacts(fo, childN, parentN) == fo
  {
  }

  /** A median or a mean that is missing is taken from the other, or both from an even spread;
      the 95th percentile and the largest count are raised to the fact below them only where they
      are less. */
  lemma FactsCompleted(fo: Fanout, childN: int, parentN: int)
    requires parentN >= 1
    ensures var f, even := FanoutFacts(fo, childN, parentN), MaxReal(1.0, childN as real / parentN as real);
            && (fo.mean > 0.0 ==> f.mean == fo.mean) && (fo.p50 > 0.0 ==> f.p50 == fo.p50)
            && (fo.mean <= 0.0 < fo.p50 ==> f.mean == fo.p50) && (fo.p50 <= 0.0 < fo.mean ==> f.p50 == fo.mean)
            && (fo.mean <= 0.0 && fo.p50 <= 0.0 ==> f.mean == f.p50 == even)
            && f.p95 == MaxReal(fo.p95, f.p50) && f.max == MaxReal(fo.max, f.p95)
  {
  }

  // ----- how many parents, and how large the largest -----

  /** n is the integer nearest to x, unless x lies outside the range that n is kept in. */
  predicate NearestWithin(x: real, n: int, lo: int, hi: int) {
    && lo <= n <= hi
    && (n as real - 0.5 <= x <= n as real + 0.5 || (n == lo && x < lo as real) || (n == hi && x > hi as real))
  }

  lemma ClampedNearest(x: real, lo: int, hi: int)
    requires MIN_INT64 <= lo <= hi <= MAX_INT64
    ensures NearestWithin(x, Clamp(ToI64(Round(x) as real), lo, hi), lo, hi)
  {
  }

  /** As many parents have children as makes the recorded mean their mean, to the nearest. */
  lemma PopulatedIsNearest(fo: Fanout, parentN: int, childN: int)
    requires 1 <= parentN <= MAX_INT64
    ensures NearestWithin(childN as real / FanoutFacts(fo, childN, parentN).mean, Populated(fo, parentN, childN),
                          1, parentN)
  {
    ClampedNearest(childN as real / FanoutFacts(fo, childN, parentN).mean, 1, parentN);
  }

  lemma Proportion(m: real, c: real, d: real)
    requires d > 0.0
    ensures m * (c / d) * d == m * c
  {
    assert c / d * d == c;
  }

  /** The largest count is kept in proportion to the children handed out: as recorded where no
      count is declared. */
  lemma ScaledMaxIs(f: Fanout, childN: int, declaredChild: int)
    ensures declaredChild > 0 ==>
              ScaledMax(f, childN, declaredChild) * declaredChild as real == f.max * childN as real
    ensures declaredChild <= 0 ==> ScaledMax(f, childN, declaredChild) == f.max
  {
    if declaredChild > 0 {
      Proportion(f.max, childN as real, declaredChild as real);
    }
  }

  /** The largest parent gets that, to the nearest. */
  lemma WhaleIsNearest(f: Fanout, childN: int, declaredChild: int)
    requires 1 <= childN <= MAX_INT64
    ensures NearestWithin(ScaledMax(f, childN, declaredChild), Whale(f, childN, declaredChild), 1, childN)
  {
    ClampedNearest(ScaledMax(f, childN, declaredChild), 1, childN);
  }

  /** The body is the lower 95 percent of the populated parents. */
  lemma BodyIsLower(n: int)
    requires 1 <= n <= MAX_INT64
    ensures 20 * BodyEnd(n) <= 19 * n < 20 * (BodyEnd(n) + 1)
  {
    var e := (0.95 * n as real).Floor;
    assert e as real <= 0.95 * n as real < (e + 1) as real;
    assert 0 <= e <= n - 1;
  }

  /** A quantile counts as the nearest whole child, and as one at least. */
  lemma CountIsNearest(x: real)
    requires x <= MAX_INT64 as real
    ensures CountOf(x) >= 1 && (x <= 1.0 ==> CountOf(x) == 1)
    ensures x >= 1.0 ==> CountOf(x) as real - 0.5 <= x <= CountOf(x) as real + 0.5
  {
    if x <= 1.0 {
      RoundMonotone(x, 1.0);
      ToI64Monotone(Round(x) as real, 1.0);
    }
  }

  // ----- the curve -----

  predicate Multiplies(pow: Pow, b: real, s: real, t: real) {
    pow(b, s + t) == pow(b, s) * pow(b, t)
  }

  predicate Whole(pow: Pow, b: real) {
    pow(b, 1.0) == b
  }

  /** What the curve needs of math.Pow: exponents add up, and one leaves the base. */
  ghost predicate Exponential(pow: Pow) {
    (forall b: real, s: real, t: real :: Multiplies(pow, b, s, t)) && forall b: real :: Whole(pow, b)
  }

  /** The curve starts at the reflection of p95 about the median, or at one child, passes through
      the median in the middle and ends at p95. */
  lemma CurveThroughFacts(pow: Pow, p50: real, p95: real)
    requires Exponential(pow) && 0.0 < p50 <= p95
    ensures BodyQuantile(pow, 0.0, p50, p95) == MaxReal(1.0, 2.0 * p50 - p95)
    ensures BodyQuantile(pow, 0.5, p50, p95) == p50
    ensures BodyQuantile(pow, 1.0, p50, p95) == p95
  {
    assert Whole(pow, p95 / p50);
    assert (1.0 - 0.5) / 0.5 == 1.0 && 0.5 / 0.5 == 1.0;
    assert p50 * (p95 / p50) == p95;
  }

  /** Below the median the curve is straight: equal steps gain equally. */
  lemma CurveLinearBelow(pow: Pow, q: real, r: real, d: real, p50: real, p95: real)
    requires 0.0 <= q && 0.0 <= r && 0.0 <= d && q + d <= 0.5 && r + d <= 0.5
    ensures BodyQuantile(pow, q + d, p50, p95) - BodyQuantile(pow, q, p50, p95)
            == BodyQuantile(pow, r + d, p50, p95) - BodyQuantile(pow, r, p50, p95)
  {
    var rise := p50 - MaxReal(1.0, 2.0 * p50 - p95);
    StepOf(rise, q / 0.5, d / 0.5);
    StepOf(rise, r / 0.5, d / 0.5);
    assert (q + d) / 0.5 == q / 0.5 + d / 0.5 && (r + d) / 0.5 == r / 0.5 + d / 0.5;
  }

  lemma StepOf(rise: real, t: real, d: real)
    ensures rise * (t + d) == rise * t + rise * d
  {
  }

  /** Above it the curve is geometric: equal steps multiply equally. */
  lemma CurveGeometricAbove(pow: Pow, q: real, r: real, d: real, p50: real, p95: real)
    requires Exponential(pow) && 0.0 < p50 <= p95
    requires 0.5 < q && 0.5 < r && 0.0 <= d && q + d <= 1.0 && r + d <= 1.0
    ensures BodyQuantile(pow, q + d, p50, p95) * BodyQuantile(pow, r, p50, p95)
            == BodyQuantile(pow, r + d, p50, p95) * BodyQuantile(pow, q, p50, p95)
  {
    var b, s, t, u := p95 / p50, (q - 0.5) / 0.5, (r - 0.5) / 0.5, d / 0.5;
    assert (q + d - 0.5) / 0.5 == s + u && (r + d - 0.5) / 0.5 == t + u;
    assert Multiplies(pow, b, s, u) && Multiplies(pow, b, t, u);
    Rearranged(p50, pow(b, s), pow(b, t), pow(b, u));
  }

  lemma Rearranged(p: real, x: real, y: real, z: real)
    ensures (p * (x * z)) * (p * y) == (p * (y * z)) * (p * x)
  {
  }

  // ----- the finished counts -----

  /** The counts before the total is settled, and what the total then lacks. */
  function Shaped(pow: Pow, fo: Fanout, parentN: int, childN: int, declaredChild: int): (s: seq<int>)
    requires parentN >= 1 && childN >= 1
    ensures |s| == parentN
  {
    var f := FanoutFacts(fo, childN, parentN);
    Shape(pow, f, parentN, Populated(fo, parentN, childN), Whale(f, childN, declaredChild))
  }

  function Missing(pow: Pow, fo: Fanout, parentN: int, childN: int, declaredChild: int): int
    requires parentN >= 1 && childN >= 1
  {
    childN - Sum(Shaped(pow, fo, parentN, childN, declaredChild)[..Populated(fo, parentN, childN)])
  }

  /** The largest parent of the finished counts has the recorded share of the children, exactly
      when one child for every other populated parent leaves room for it, or it is a single one. */
  lemma LargestShownIff(counts: seq<int>, pow: Pow, fo: Fanout, parentN: int, childN: int, declaredChild: int)
    requires parentN >= 1 && childN >= 1 && TargetCountsOf(counts, pow, fo, parentN, childN, declaredChild)
    requires Populated(fo, parentN, childN) >= 2
    ensures var n := Populated(fo, parentN, childN);
            var whale := Whale(FanoutFacts(fo, childN, parentN), childN, declaredChild);
            |counts| == parentN && (counts[n - 1] == whale <==> n - 1 + whale <= childN || whale == 1)
  {
    var n := Populated(fo, parentN, childN);
    var shape := Shaped(pow, fo, parentN, childN, declaredChild);
    assert forall p :: 0 <= p < n ==> shape[p] >= 1;
    WhaleKeptIff(shape, counts, n, childN);
  }

  /** The parents from the 95th percentile on, below the largest, have the recorded count, where
      no more is missing than there are parents below them. */
  lemma PercentileShown(counts: seq<int>, pow: Pow, fo: Fanout, parentN: int, childN: int, declaredChild: int, i: int)
    requires parentN >= 1 && childN >= 1 && TargetCountsOf(counts, pow, fo, parentN, childN, declaredChild)
    requires BodyEnd(Populated(fo, parentN, childN)) <= i < Populated(fo, parentN, childN) - 1
    requires 0 <= Missing(pow, fo, parentN, childN, declaredChild) <= BodyEnd(Populated(fo, parentN, childN))
    ensures |counts| == parentN && counts[i] == CountOf(FanoutFacts(fo, childN, parentN).p95)
  {
    BandKeptIff(counts, pow, fo, parentN, childN, declaredChild);
    assert Shaped(pow, fo, parentN, childN, declaredChild)[i] == CountOf(FanoutFacts(fo, childN, parentN).p95);
  }

  lemma MedianOfShape(pow: Pow, f: Fanout, nonEmpty: int, whale: int, i: int, j: int)
    requires GrowsWithExponent(pow) && Exponential(pow) && 0.0 < f.p50 <= f.p95
    requires nonEmpty >= 1 && 0 <= i < BodyEnd(nonEmpty) && 0 <= j < BodyEnd(nonEmpty)
    requires 2 * i + 1 <= BodyEnd(nonEmpty) <= 2 * j + 1
    ensures ShapeAt(pow, f, nonEmpty, whale, i) <= CountOf(f.p50) <= ShapeAt(pow, f, nonEmpty, whale, j)
  {
    var e := BodyEnd(nonEmpty);
    PositionOf(i, e);
    PositionOf(j, e);
    CurveThroughFacts(pow, f.p50, f.p95);
    BodyCountAscending(pow, Position(i, e), 0.5, f.p50, f.p95);
    BodyCountAscending(pow, 0.5, Position(j, e), f.p50, f.p95);
  }

  lemma RatioAgainst(x: real, y: real, t: real, d: real)
    requires d > 0.0 && y == t * d
    ensures x <= y ==> x / d <= t
    ensures x >= y ==> x / d >= t
  {
    assert y / d == t;
    if x <= y {
      RatioMonotone(x, y, d);
    }
    if x >= y {
      RatioMonotone(y, x, d);
    }
  }

  lemma PositionOf(i: int, e: int)
    requires 0 <= i < e
    ensures 0.0 <= Position(i, e) <= 1.0
    ensures 2 * i + 1 <= e ==> Position(i, e) <= 0.5
    ensures 2 * i + 1 >= e ==> Position(i, e) >= 0.5
  {
    var x, d := i as real + 0.5, e as real;
    RatioAgainst(x, 0.0, 0.0, d);
    RatioAgainst(x, d, 1.0, d);
    RatioAgainst(x, 0.5 * d, 0.5, d);
  }

  /** The lower half of the body has no more than the recorded median, and the upper half no less,
      each moved by the even share of what is missing, to within one child. */
  lemma MedianShown(counts: seq<int>, pow: Pow, fo: Fanout, parentN: int, childN: int, declaredChild: int,
                    i: int, j: int)
    requires parentN >= 1 && childN >= 1 && TargetCountsOf(counts, pow, fo, parentN, childN, declaredChild)
    requires GrowsWithExponent(pow) && Exponential(pow) && Missing(pow, fo, parentN, childN, declaredChild) >= 0
    requires var e := BodyEnd(Populated(fo, parentN, childN)); 0 <= i < e && 0 <= j < e && 2 * i + 1 <= e <= 2 * j + 1
    ensures var n, missing := Populated(fo, parentN, childN), Missing(pow, fo, parentN, childN, declaredChild);
            var median := CountOf(FanoutFacts(fo, childN, parentN).p50);
            && n >= 2 && |counts| == parentN
            && (missing == 0 ==> counts[i] <= median <= counts[j])
            && counts[i] <= median + missing / (n - 1) + 1 && median + missing / (n - 1) <= counts[j]
  {
    var n, f := Populated(fo, parentN, childN), FanoutFacts(fo, childN, parentN);
    var shape := Shaped(pow, fo, parentN, childN, declaredChild);
    assert forall p :: 0 <= p < n ==> shape[p] >= 1;
    MedianOfShape(pow, f, n, Whale(f, childN, declaredChild), i, j);
    EvenlySpread(shape, counts, n, childN, i, j);
    EvenlySpread(shape, counts, n, childN, j, i);
    assert shape[i] == ShapeAt(pow, f, n, Whale(f, childN, declaredChild), i);
    assert shape[j] == ShapeAt(pow, f, n, Whale(f, childN, declaredChild), j);
  }

  // ----- orphans -----

  lemma PartOf(fraction: real, n: real, x: real)
    requires 0.0 <= fraction <= 1.0 && n >= 0.0 && x == fraction * n
    ensures 0.0 <= x <= n
  {
    ProductMonotone(n, 0.0, fraction);
    ProductMonotone(n, fraction, 1.0);
  }

  lemma NearestOf(x: real, n: int)
    requires 0.0 <= x <= n as real && n <= MAX_INT64
    ensures NearestWithin(x, Max(0, ToI64(Round(x) as real)), 0, n)
  {
    RoundMonotone(x, n as real);
  }

  /** The rows that should dangle are the recorded share x of the children, to the nearest. */
  lemma OrphansAreNearest(fraction: real, childN: int, x: real)
    requires 0.0 < fraction <= 1.0 && 1 <= childN <= MAX_INT64 && x == fraction * childN as real
    ensures NearestWithin(x, OrphanRowsWanted(Some(fraction), childN), 0, childN)
  {
    PartOf(fraction, childN as real, x);
    NearestOf(x, childN);
  }
}
