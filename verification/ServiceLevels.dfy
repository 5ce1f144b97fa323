/** Service-level arithmetic: availability in basis points, error-budget burn rate, alerts. Rates are
    exact; floating-point error is not modelled. */
module ServiceLevels {
  import opened Common

  datatype Alert = PAGE | TICKET | NONE

  predicate ValidSample(good: int, total: int) {
    total > 0 && 0 <= good <= total
  }

  /** `availability_bps`; Err is a raised ValueError. */
  function AvailabilityBps(good: int, total: int): Result<int, ()> {
    if ValidSample(good, total) then Ok(good * 10000 / total) else Err(())
  }

  /** `burn_rate`; Err is a raised ValueError. The budget of an accepted call is never zero. */
  function BurnRate(consumed: int, total: int, objectiveBps: int): Result<real, ()> {
    if total <= 0 || !(0 < objectiveBps < 10000) then Err(())
    else
      Positive(total, objectiveBps);
      Ok(consumed as real / Allowed(total, objectiveBps))
  }

  /** The errors the objective allows. */
  function Allowed(total: int, objectiveBps: int): real {
    (total * (10000 - objectiveBps)) as real / 10000.0
  }

  lemma Positive(total: int, objectiveBps: int)
    requires total > 0 && objectiveBps < 10000
    ensures Allowed(total, objectiveBps) > 0.0
  {
    assert total * (10000 - objectiveBps) > 0;
  }

  function AlertDecision(burn: real, windowHours: int): Alert {
    if windowHours <= 1 && burn >= 14.4 then PAGE
    else if windowHours <= 6 && burn >= 6.0 then PAGE
    else if windowHours <= 72 && burn >= 1.0 then TICKET
    else NONE
  }

  /** When the two rates raise, and what they are: the availability is the whole part of the share of good
      events in basis points, and the burn rate the failed events over the allowed ones. */
  lemma RatesExactly(good: int, consumed: int, total: int, objectiveBps: int)
    ensures AvailabilityBps(good, total).Ok? <==> total > 0 && 0 <= good <= total
    ensures AvailabilityBps(good, total).Ok? ==>
            var bps := AvailabilityBps(good, total).value; bps * total <= 10000 * good < (bps + 1) * total
    ensures BurnRate(consumed, total, objectiveBps).Ok? <==> total > 0 && 0 < objectiveBps < 10000
    ensures BurnRate(consumed, total, objectiveBps).Ok? ==>
            BurnRate(consumed, total, objectiveBps).value * (total * (10000 - objectiveBps)) as real ==
            10000.0 * consumed as real
  {
    if total > 0 && 0 < objectiveBps < 10000 {
      Positive(total, objectiveBps);
      var b := Allowed(total, objectiveBps);
      assert consumed as real / b * b == consumed as real;
      assert (total * (10000 - objectiveBps)) as real == 10000.0 * b;
    }
    if total > 0 {
      assert good * 10000 == total * (good * 10000 / total) + good * 10000 % total;
    }
  }

  lemma QuotientAtMostOne(a: real, b: real)
    requires b > 0.0
    ensures a / b <= 1.0 <==> a <= b
    ensures a / b < 1.0 <==> a < b
  {
    var q := a / b;
    assert q * b == a;
    assert (1.0 - q) * b == b - a;
    if q <= 1.0 { assert (1.0 - q) * b >= 0.0; }
    if q > 1.0 { assert (q - 1.0) * b > 0.0; }
    if q < 1.0 { assert (1.0 - q) * b > 0.0; }
  }

  lemma QuotientReaches(q: int, n: int, d: int, k: int)
    requires d > 0 && q * d <= n < q * d + d
    ensures q >= k <==> n >= k * d
  {
    if q >= k {
      MultipleOrder(k, q, d);
    } else {
      MultipleOrder(q + 1, k, d);
      assert (q + 1) * d == q * d + d;
    }
  }

  lemma MultipleOrder(a: int, b: int, d: int)
    requires a <= b && d > 0
    ensures a * d <= b * d
  {
  }

  /** A floored quotient reaches an integer exactly when the exact quotient does. */
  lemma FloorReaches(n: int, d: int, k: int)
    requires d > 0
    ensures n / d >= k <==> n >= k * d
  {
    var q, r := n / d, n % d;
    assert n == d * q + r;
    QuotientReaches(q, n, d, k);
  }

  /** Flooring the availability loses nothing: the objective is met exactly when the burn rate of the
      failed events is at most one. */
  lemma ObjectiveMetExactly(good: int, total: int, objectiveBps: int)
    requires ValidSample(good, total) && 0 < objectiveBps < 10000
    ensures AvailabilityBps(good, total).value >= objectiveBps <==>
            BurnRate(total - good, total, objectiveBps).value <= 1.0
  {
    FloorReaches(good * 10000, total, objectiveBps);
    Positive(total, objectiveBps);
    QuotientAtMostOne((total - good) as real, Allowed(total, objectiveBps));
    BudgetInWholeNumbers(total - good, total, objectiveBps);
    assert (total - good) * 10000 <= total * (10000 - objectiveBps) <==> good * 10000 >= objectiveBps * total;
  }

  lemma BudgetInWholeNumbers(consumed: int, total: int, objectiveBps: int)
    ensures consumed as real <= Allowed(total, objectiveBps) <==> consumed * 10000 <= total * (10000 - objectiveBps)
    ensures consumed as real < Allowed(total, objectiveBps) <==> consumed * 10000 < total * (10000 - objectiveBps)
  {
    var b := total * (10000 - objectiveBps);
    assert Allowed(total, objectiveBps) * 10000.0 == b as real;
  }

  /** Within 72 hours silence means that budget is left over, and nothing less: no alert is raised
      exactly when the consumed errors stay strictly below the allowed ones. In particular the objective
      is then met. */
  lemma SilenceExactly(good: int, total: int, objectiveBps: int, windowHours: int)
    requires ValidSample(good, total) && 0 < objectiveBps < 10000 && windowHours <= 72
    ensures var alert := AlertDecision(BurnRate(total - good, total, objectiveBps).value, windowHours);
      && (alert == NONE <==> good * 10000 > objectiveBps * total)
      && (alert == NONE ==> AvailabilityBps(good, total).value >= objectiveBps)
  {
    ObjectiveMetExactly(good, total, objectiveBps);
    Positive(total, objectiveBps);
    QuotientAtMostOne((total - good) as real, Allowed(total, objectiveBps));
    BudgetInWholeNumbers(total - good, total, objectiveBps);
    assert (total - good) * 10000 < total * (10000 - objectiveBps) <==> good * 10000 > objectiveBps * total;
  }

  /** The rule for windows of one hour never decides: an alert pages exactly in windows of up to six hours
      whose errors are six times the allowed ones or more, and otherwise makes a ticket exactly in windows
      of up to 72 hours whose errors reach the allowed ones. */
  lemma AlertsExactly(consumed: int, total: int, objectiveBps: int, windowHours: int)
    requires total > 0 && 0 < objectiveBps < 10000
    ensures var alert := AlertDecision(BurnRate(consumed, total, objectiveBps).value, windowHours);
      var allowed := total * (10000 - objectiveBps);
      && (alert == PAGE <==> windowHours <= 6 && 10000 * consumed >= 6 * allowed)
      && (alert == TICKET <==> windowHours <= 72 && 10000 * consumed >= allowed
                               && !(windowHours <= 6 && 10000 * consumed >= 6 * allowed))
  {
    Positive(total, objectiveBps);
    var b := Allowed(total, objectiveBps);
    QuotientReachesMultiple(consumed as real, b, 6.0);
    QuotientReachesMultiple(consumed as real, b, 1.0);
    QuotientReachesMultiple(consumed as real, b, 14.4);
  }

  lemma QuotientReachesMultiple(a: real, b: real, k: real)
    requires b > 0.0
    ensures a / b >= k <==> a >= k * b
  {
    var q := a / b;
    assert q * b == a && (q - k) * b == a - k * b;
    if q >= k { assert (q - k) * b >= 0.0; }
    if q < k { assert (k - q) * b > 0.0; }
  }

  lemma NonNegativeProduct(x: real, k: real)
    requires k > 0.0 && x >= 0.0
    ensures x * k >= 0.0
  {
  }

  lemma NonNegativeFactor(x: real, k: real)
    requires k > 0.0 && x * k >= 0.0
    ensures x >= 0.0
  {
  }

  /** A ratio of sums lies between the two ratios. */
  lemma MediantBetween(a: real, b: real, c: real, d: real)
    requires b > 0.0 && d > 0.0 && a / b <= c / d
    ensures a / b <= (a + c) / (b + d) <= c / d
  {
    var p, q, m := a / b, c / d, (a + c) / (b + d);
    assert p * b == a && q * d == c && m * (b + d) == a + c;
    assert (m - p) * (b + d) == (q - p) * d;
    assert (q - m) * (b + d) == (q - p) * b;
    NonNegativeProduct(q - p, d);
    NonNegativeProduct(q - p, b);
    NonNegativeFactor(m - p, b + d);
    NonNegativeFactor(q - m, b + d);
  }

  /** Merging two samples of one service gives a burn rate between their separate ones. */
  lemma MergedBurnRate(c1: int, t1: int, c2: int, t2: int, objectiveBps: int)
    requires t1 > 0 && t2 > 0 && 0 < objectiveBps < 10000
    requires BurnRate(c1, t1, objectiveBps).value <= BurnRate(c2, t2, objectiveBps).value
    ensures BurnRate(c1, t1, objectiveBps).value <= BurnRate(c1 + c2, t1 + t2, objectiveBps).value
    ensures BurnRate(c1 + c2, t1 + t2, objectiveBps).value <= BurnRate(c2, t2, objectiveBps).value
  {
    Positive(t1, objectiveBps);
    Positive(t2, objectiveBps);
    assert Allowed(t1 + t2, objectiveBps) == Allowed(t1, objectiveBps) + Allowed(t2, objectiveBps) by {
      assert (t1 + t2) * (10000 - objectiveBps) == t1 * (10000 - objectiveBps) + t2 * (10000 - objectiveBps);
    }
    MediantBetween(c1 as real, Allowed(t1, objectiveBps), c2 as real, Allowed(t2, objectiveBps));
  }
}
