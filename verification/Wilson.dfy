/** The Wilson score interval over the exact reals. The square root is the argument `root`, any
    non-negative number whose square is the variance term. */
module Wilson {
  import opened Common

  datatype Interval = Interval(low: real, high: real)

  /** The normal quantile z and the sample, with successes counted among total trials. */
  datatype Sample = Sample(successes: int, total: int, z: real) {
    predicate Valid() {
      total > 0 && 0 <= successes <= total && z >= 0.0
    }

    function Rate(): real
      requires total > 0
    {
      successes as real / total as real
    }

    function Swapped(): Sample {
      Sample(total - successes, total, z)
    }
  }

  function VarianceOf(n: real, p: real, z: real): real
    requires n > 0.0
  {
    (p * (1.0 - p) + z * z / (4.0 * n)) / n
  }

  predicate IsRoot(root: real, s: Sample)
    requires s.total > 0
  {
    root >= 0.0 && root * root == VarianceOf(s.total as real, s.Rate(), s.z)
  }

  function Denominator(n: real, z: real): (d: real)
    requires n > 0.0
    ensures d > 0.0
  {
    assert z * z / n >= 0.0;
    1.0 + z * z / n
  }

  function Centre(n: real, p: real, z: real): real
    requires n > 0.0
  {
    (p + z * z / (2.0 * n)) / Denominator(n, z)
  }

  function Radius(n: real, z: real, root: real): real
    requires n > 0.0
  {
    z * root / Denominator(n, z)
  }

  /** Centre minus and plus radius, before clamping. */
  function UnclampedOf(n: real, p: real, z: real, root: real): Interval
    requires n > 0.0
  {
    Interval(Centre(n, p, z) - Radius(n, z, root), Centre(n, p, z) + Radius(n, z, root))
  }

  function Unclamped(s: Sample, root: real): Interval
    requires s.total > 0
  {
    UnclampedOf(s.total as real, s.Rate(), s.z, root)
  }

  /** `wilson`. */
  function Bounds(s: Sample, root: real): Interval {
    if s.total <= 0 then Interval(0.0, 0.0)
    else
      var i := Unclamped(s, root);
      Interval(if i.low > 0.0 then i.low else 0.0, if i.high < 1.0 then i.high else 1.0)
  }

  /** The score statistic in polynomial form: zero where the standardised distance between the observed
      rate and x is exactly z. */
  function Score(s: Sample, x: real): real
    requires s.total > 0
  {
    ScoreOf(s.total as real, s.Rate(), s.z, x)
  }

  function ScoreOf(n: real, p: real, z: real, x: real): real {
    Misfit(n, p - x) - Spread(z, x)
  }

  function Misfit(n: real, distance: real): real {
    n * distance * distance
  }

  function Spread(z: real, x: real): real {
    z * z * x * (1.0 - x)
  }

  // ----- the quadratic behind the interval -----

  /** Leading coefficient, half the negated linear coefficient, and half the root of the discriminant. */
  datatype Quadratic = Quadratic(a: real, b: real, r: real)

  function QuadraticOf(s: Sample, root: real): Quadratic
    requires s.total > 0
  {
    CoefficientsOf(s.total as real, s.Rate(), s.z, root)
  }

  function CoefficientsOf(n: real, p: real, z: real, root: real): Quadratic {
    Quadratic(n + z * z, n * p + z * z / 2.0, z * n * root)
  }

  lemma Cleared(n: real, p: real, z: real, root: real)
    requires n > 0.0
    ensures var d := Denominator(n, z);
      && n * d == n + z * z && Radius(n, z, root) * d == z * root
      && n * (Centre(n, p, z) * d) == n * p + z * z / 2.0
  {
    var d, w := Denominator(n, z), z * z;
    assert w / (2.0 * n) * n == w / 2.0;
    assert Centre(n, p, z) * d == p + w / (2.0 * n);
  }

  lemma Distributed(n: real, d: real, c: real, r: real)
    ensures n * d * (c - r) == n * (c * d) - n * (r * d) && n * d * (c + r) == n * (c * d) + n * (r * d)
  {
  }

  lemma RootsOf(n: real, p: real, z: real, root: real)
    requires n > 0.0
    ensures var q, i := CoefficientsOf(n, p, z, root), UnclampedOf(n, p, z, root);
      q.a > 0.0 && q.a * i.low == q.b - q.r && q.a * i.high == q.b + q.r
  {
    hide Denominator, Centre, Radius;
    var d, c, r := Denominator(n, z), Centre(n, p, z), Radius(n, z, root);
    Cleared(n, p, z, root);
    Distributed(n, d, c, r);
    Reordered(n, z, root);
    assert n * (r * d) == z * n * root;
  }

  lemma Reordered(n: real, z: real, root: real)
    ensures n * (z * root) == z * n * root && n + z * z >= n
  {
  }

  /** The unclamped bounds are the roots (b - r)/a and (b + r)/a. */
  lemma UnclampedRoots(s: Sample, root: real)
    requires s.Valid()
    ensures var q := QuadraticOf(s, root);
      && q.a > 0.0
      && q.a * Unclamped(s, root).low == q.b - q.r
      && q.a * Unclamped(s, root).high == q.b + q.r
  {
    hide Denominator, Centre, Radius, Sample.Rate;
    RootsOf(s.total as real, s.Rate(), s.z, root);
  }

  /** Completing the square: a times the score is the squared distance from b, less r squared. */
  lemma CompleteSquare(n: real, p: real, z: real, root: real, x: real)
    requires n > 0.0 && root * root == VarianceOf(n, p, z)
    ensures var q := CoefficientsOf(n, p, z, root);
      q.a * ScoreOf(n, p, z, x) == (q.a * x - q.b) * (q.a * x - q.b) - q.r * q.r
  {
    var w := z * z;
    var v := root * root;
    assert v * n == p * (1.0 - p) + w / (4.0 * n);
    assert w / (4.0 * n) * n == w / 4.0;
    assert v * n * n == n * p * (1.0 - p) + w / 4.0;
    var r := z * n * root;
    assert r * r == w * (v * n * n);
    assert r * r == w * n * p * (1.0 - p) + w * w / 4.0;
    Expand(n, p, w, x);
  }

  lemma Expand(n: real, p: real, w: real, x: real)
    ensures (n + w) * (n * (p - x) * (p - x) - w * x * (1.0 - x)) ==
            ((n + w) * x - (n * p + w / 2.0)) * ((n + w) * x - (n * p + w / 2.0))
            - (w * n * p * (1.0 - p) + w * w / 4.0)
  {
  }

  lemma ScoreSquare(s: Sample, root: real, x: real)
    requires s.Valid() && IsRoot(root, s)
    ensures var q := QuadraticOf(s, root);
      q.a * Score(s, x) == (q.a * x - q.b) * (q.a * x - q.b) - q.r * q.r
  {
    hide ScoreOf, CoefficientsOf, VarianceOf, Sample.Rate;
    CompleteSquare(s.total as real, s.Rate(), s.z, root, x);
  }

  lemma SquareOrder(y: real, r: real)
    requires r >= 0.0
    ensures y * y <= r * r <==> -r <= y <= r
    ensures y * y == r * r <==> y == r || y == -r
  {
  }

  /** The score is at most zero exactly between the bounds, and zero exactly at the bounds: the two
      endpoints are the two solutions of total (p - x)^2 = z^2 x (1 - x). */
  lemma ScoreSign(s: Sample, root: real, x: real)
    requires s.Valid() && IsRoot(root, s)
    ensures Score(s, x) <= 0.0 <==> Unclamped(s, root).low <= x <= Unclamped(s, root).high
    ensures Score(s, x) == 0.0 <==> x == Unclamped(s, root).low || x == Unclamped(s, root).high
  {
    hide Score, Unclamped, QuadraticOf;
    var q, i := QuadraticOf(s, root), Unclamped(s, root);
    UnclampedRoots(s, root);
    ScoreSquare(s, root, x);
    RadiusNonNegative(s, root);
    SquareOrder(q.a * x - q.b, q.r);
    Scaled(q.a, i.low, x);
    Scaled(q.a, x, i.high);
    Scaled(q.a, Score(s, x), 0.0);
  }

  lemma RadiusNonNegative(s: Sample, root: real)
    requires s.Valid() && root >= 0.0
    ensures QuadraticOf(s, root).r >= 0.0
  {
  }

  lemma Scaled(a: real, x: real, y: real)
    requires a > 0.0
    ensures x <= y <==> a * x <= a * y
    ensures x == y <==> a * x == a * y
  {
  }

  // ----- consequences -----

  lemma RateInUnit(s: Sample)
    requires s.Valid()
    ensures 0.0 <= s.Rate() <= 1.0
  {
  }

  /** The observed rate lies between the bounds, and both clamps are redundant over the reals. */
  lemma BoundsBracketRate(s: Sample, root: real)
    requires s.Valid() && IsRoot(root, s)
    ensures 0.0 <= Unclamped(s, root).low <= s.Rate() <= Unclamped(s, root).high <= 1.0
    ensures Bounds(s, root) == Unclamped(s, root)
  {
    var p, i := s.Rate(), Unclamped(s, root);
    ScoreAtRate(s);
    ScoreSign(s, root, p);
    OutsideUnit(s, i.low);
    OutsideUnit(s, i.high);
    ScoreSign(s, root, i.low);
    ScoreSign(s, root, i.high);
  }

  lemma ScoreAtRate(s: Sample)
    requires s.Valid()
    ensures Score(s, s.Rate()) <= 0.0
  {
  }

  lemma MisfitPositive(n: real, distance: real)
    requires n > 0.0 && distance != 0.0
    ensures Misfit(n, distance) > 0.0
  {
    var c := n * distance;
    assert Misfit(n, distance) == c * distance;
    assert distance > 0.0 ==> c > 0.0;
    assert distance < 0.0 ==> c < 0.0;
  }

  lemma SpreadSign(z: real, x: real)
    ensures 0.0 <= x <= 1.0 ==> Spread(z, x) >= 0.0
    ensures x < 0.0 || x > 1.0 ==> Spread(z, x) <= 0.0
  {
  }

  /** Outside the unit interval the score is positive. */
  lemma OutsideUnit(s: Sample, x: real)
    requires s.Valid()
    ensures x < 0.0 || x > 1.0 ==> Score(s, x) > 0.0
  {
    RateInUnit(s);
    SpreadSign(s.z, x);
    if x < 0.0 || x > 1.0 {
      MisfitPositive(s.total as real, s.Rate() - x);
    }
  }

  lemma RateSwapped(s: Sample)
    requires s.Valid()
    ensures s.Swapped().Valid() && s.Swapped().Rate() == 1.0 - s.Rate()
  {
    var n := s.total as real;
    assert s.Rate() * n == s.successes as real;
    Scaled(n, s.Swapped().Rate(), 1.0 - s.Rate());
  }

  lemma ScoreOfSwapped(n: real, p: real, z: real, x: real)
    ensures ScoreOf(n, 1.0 - p, z, x) == ScoreOf(n, p, z, 1.0 - x)
  {
  }

  lemma VarianceOfSwapped(n: real, p: real, z: real)
    requires n > 0.0
    ensures VarianceOf(n, 1.0 - p, z) == VarianceOf(n, p, z)
  {
  }

  /** Swapping successes for failures reflects the interval about one half. */
  lemma SwapReflects(s: Sample, root: real)
    requires s.Valid() && IsRoot(root, s)
    ensures s.Swapped().Valid() && IsRoot(root, s.Swapped())
    ensures Bounds(s.Swapped(), root).low == 1.0 - Bounds(s, root).high
    ensures Bounds(s.Swapped(), root).high == 1.0 - Bounds(s, root).low
  {
    var w := s.Swapped();
    RateSwapped(s);
    VarianceOfSwapped(s.total as real, s.Rate(), s.z);
    BoundsBracketRate(s, root);
    BoundsBracketRate(w, root);
    var i, j := Unclamped(s, root), Unclamped(w, root);
    forall x ensures Score(w, x) == Score(s, 1.0 - x) {
      ScoreOfSwapped(s.total as real, s.Rate(), s.z, x);
    }
    ScoreSign(w, root, j.low);
    ScoreSign(s, root, 1.0 - j.low);
    ScoreSign(w, root, j.high);
    ScoreSign(s, root, 1.0 - j.high);
    ScoreSign(s, root, i.low);
    ScoreSign(w, root, 1.0 - i.low);
    ScoreSign(s, root, i.high);
    ScoreSign(w, root, 1.0 - i.high);
  }

  /** Below both rates, a larger rate has the larger score. */
  lemma ScoreOfGrows(n: real, p: real, q: real, z: real, x: real)
    requires n > 0.0 && x <= p <= q
    ensures ScoreOf(n, p, z, x) <= ScoreOf(n, q, z, x)
  {
  }

  lemma LowMonotone(s: Sample, t: Sample, rootS: real, rootT: real)
    requires s.Valid() && t.Valid() && s.total == t.total && s.z == t.z && s.successes <= t.successes
    requires IsRoot(rootS, s) && IsRoot(rootT, t)
    ensures Unclamped(s, rootS).low <= Unclamped(t, rootT).low
  {
    hide ScoreOf, Unclamped, VarianceOf;
    var x := Unclamped(t, rootT).low;
    BoundsBracketRate(s, rootS);
    BoundsBracketRate(t, rootT);
    ScoreSign(t, rootT, x);
    ScoreSign(s, rootS, x);
    RateMonotone(s, t);
    if x < Unclamped(s, rootS).low {
      ScoreOfGrows(s.total as real, s.Rate(), t.Rate(), s.z, x);
    }
  }

  lemma RateMonotone(s: Sample, t: Sample)
    requires s.Valid() && t.Valid() && s.total == t.total && s.successes <= t.successes
    ensures s.Rate() <= t.Rate()
  {
    var n := s.total as real;
    var a, b := s.successes as real, t.successes as real;
    assert a <= b;
    QuotientMonotone(a, b, n);
  }

  /** Both endpoints are nondecreasing in the number of successes. */
  lemma BoundsMonotone(s: Sample, t: Sample, rootS: real, rootT: real)
    requires s.Valid() && t.Valid() && s.total == t.total && s.z == t.z && s.successes <= t.successes
    requires IsRoot(rootS, s) && IsRoot(rootT, t)
    ensures Bounds(s, rootS).low <= Bounds(t, rootT).low
    ensures Bounds(s, rootS).high <= Bounds(t, rootT).high
  {
    hide ScoreOf, Unclamped, VarianceOf, Bounds;
    BoundsBracketRate(s, rootS);
    BoundsBracketRate(t, rootT);
    LowMonotone(s, t, rootS, rootT);
    SwapReflects(s, rootS);
    SwapReflects(t, rootT);
    LowMonotone(t.Swapped(), s.Swapped(), rootT, rootS);
    BoundsBracketRate(s.Swapped(), rootS);
    BoundsBracketRate(t.Swapped(), rootT);
  }
}
