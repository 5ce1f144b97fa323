/** Commercial arithmetic over exact rationals: minor units of a currency and contribution margins. The
    28-digit precision of the decimal library is not modelled. */
module Commercial {
  import opened Common

  /** Rounding to an integer, ties away from zero. */
  function HalfUp(x: real): int {
    if x >= 0.0 then (x + 0.5).Floor else -((-x + 0.5).Floor)
  }

  function Pow10(exponent: int): real
    requires 0 <= exponent <= 4
  {
    if exponent == 0 then 1.0 else if exponent == 1 then 10.0 else if exponent == 2 then 100.0
    else if exponent == 3 then 1000.0 else 10000.0
  }

  /** `money_minor`: quantize to the currency's smallest unit, then count the units. Err is a raised
      ValueError. */
  function MoneyMinor(value: real, exponent: int): Result<int, ()> {
    if exponent < 0 || exponent > 4 then Err(()) else Ok(MinorAt(value, Pow10(exponent)))
  }

  function MinorAt(value: real, scale: real): int
    requires scale != 0.0
  {
    var amount := HalfUp(value * scale) as real / scale;
    (amount * scale).Floor
  }

  /** Counting minor units is monotone. */
  lemma MinorMonotone(a: real, b: real, exponent: int)
    requires 0 <= exponent <= 4 && a <= b
    ensures MoneyMinor(a, exponent).value <= MoneyMinor(b, exponent).value
  {
  }

  /** Counting minor units is odd: refunds mirror charges. */
  lemma MinorOdd(a: real, exponent: int)
    requires 0 <= exponent <= 4
    ensures MoneyMinor(-a, exponent).value == -MoneyMinor(a, exponent).value
  {
  }

  lemma HalfUpWhole(n: int)
    ensures HalfUp(n as real) == n
  {
  }

  /** The value, made ten times as large n times. */
  ghost function Scaled(value: real, n: nat): real {
    if n == 0 then value else 10.0 * Scaled(value, n - 1)
  }

  lemma ScaledByPower(value: real, exponent: int)
    requires 0 <= exponent <= 4
    ensures value * Pow10(exponent) == Scaled(value, exponent)
  {
    assert Scaled(value, 1) == 10.0 * value && Scaled(value, 2) == 100.0 * value;
    assert Scaled(value, 3) == 1000.0 * value && Scaled(value, 4) == 10000.0 * value;
  }

  /** `n` is nearest to `units`, ties going away from zero; a whole number is nearest to itself. */
  ghost predicate IsNearest(n: int, units: real) {
    var d := n as real - units;
    && -0.5 <= d <= 0.5
    && (d == 0.5 ==> units >= 0.0)
    && (d == -0.5 ==> units < 0.0)
    && (units.Floor as real == units ==> d == 0.0)
  }

  lemma HalfUpNearest(units: real)
    ensures IsNearest(HalfUp(units), units)
  {
    HalfUpWhole(units.Floor);
  }

  lemma MinorAtIsHalfUp(value: real, scale: real)
    requires scale != 0.0
    ensures MinorAt(value, scale) == HalfUp(value * scale)
  {
    var n := HalfUp(value * scale) as real;
    hide HalfUp;
    assert n / scale * scale == n;
  }

  lemma MinorIsHalfUp(a: real, exponent: int)
    ensures MoneyMinor(a, exponent) == if 0 <= exponent <= 4 then Ok(HalfUp(Scaled(a, exponent))) else Err(())
  {
    if 0 <= exponent <= 4 {
      ScaledByPower(a, exponent);
      MinorAtIsHalfUp(a, Pow10(exponent));
    }
  }

  /** Exponents from zero to four are accepted; the count is the nearest one, ties going away from zero,
      and whole minor units are kept. */
  lemma MinorNearest(a: real, exponent: int)
    ensures MoneyMinor(a, exponent).Ok? <==> 0 <= exponent <= 4
    ensures 0 <= exponent <= 4 ==> IsNearest(MoneyMinor(a, exponent).value, Scaled(a, exponent))
  {
    hide HalfUp, IsNearest, MoneyMinor;
    MinorIsHalfUp(a, exponent);
    if 0 <= exponent <= 4 {
      HalfUpNearest(Scaled(a, exponent));
    }
  }

  // ----- contribution margin -----

  datatype Margin = Margin(revenue: int, cost: int, contribution: int, bps: int, pass: bool)

  function Sum(costs: seq<int>): int {
    if costs == [] then 0 else costs[0] + Sum(costs[1..])
  }

  /** `margin_scenario`; Err is a raised ValueError. */
  function MarginScenario(revenue: int, costs: seq<int>, floorBps: int): Result<Margin, ()> {
    if revenue <= 0 then Err(())
    else
      var total := Sum(costs);
      var contribution := revenue - total;
      var bps := HalfUp(contribution as real / revenue as real * 10000.0);
      Ok(Margin(revenue, total, contribution, bps, bps >= floorBps))
  }

  /** The decision in whole numbers: half a basis point below a positive floor still passes, and at a
      floor of zero or less it does not. */
  lemma MarginDecision(revenue: int, costs: seq<int>, floorBps: int)
    requires revenue > 0
    ensures var contribution := revenue - Total(costs, |costs|);
      MarginScenario(revenue, costs, floorBps).value.pass <==>
      if floorBps >= 1 then 20000 * contribution >= (2 * floorBps - 1) * revenue
      else 20000 * contribution > (2 * floorBps - 1) * revenue
  {
    TotalIsSum(costs, |costs|);
    assert costs[..|costs|] == costs;
    var c := revenue - Sum(costs);
    var q := c as real / revenue as real;
    Threshold(q, c, revenue, floorBps);
  }

  /** What the scenario reports: the revenue, the sum of the costs, what remains, and the share of the
      revenue that remains, in basis points rounded to the nearest, ties away from zero. */
  lemma MarginReported(revenue: int, costs: seq<int>, floorBps: int)
    ensures MarginScenario(revenue, costs, floorBps).Ok? <==> revenue > 0
    ensures revenue > 0 ==>
            var m := MarginScenario(revenue, costs, floorBps).value;
            var share := (revenue - Total(costs, |costs|)) as real * 10000.0 / revenue as real;
            && m.revenue == revenue && m.cost == Total(costs, |costs|) && m.contribution == revenue - m.cost
            && -0.5 <= m.bps as real - share <= 0.5
            && (m.bps as real - share == 0.5 ==> share >= 0.0) && (m.bps as real - share == -0.5 ==> share < 0.0)
            && (m.pass <==> m.bps >= floorBps)
  {
    TotalIsSum(costs, |costs|);
    assert costs[..|costs|] == costs;
    if revenue > 0 {
      ShareOf(revenue - Sum(costs), revenue);
    }
  }

  lemma ShareOf(c: int, r: int)
    requires r > 0
    ensures c as real / r as real * 10000.0 == c as real * 10000.0 / r as real
  {
  }

  /** The sum of the first k costs. */
  function Total(costs: seq<int>, k: nat): int
    requires k <= |costs|
  {
    if k == 0 then 0 else Total(costs, k - 1) + costs[k - 1]
  }

  lemma {:induction false} TotalIsSum(costs: seq<int>, k: nat)
    requires k <= |costs|
    ensures Total(costs, k) == Sum(costs[..k])
  {
    if k > 0 {
      TotalIsSum(costs, k - 1);
      SumWithout(costs[..k], k - 1);
      assert costs[..k][..k - 1] + costs[..k][k..] == costs[..k - 1];
    }
  }

  lemma Threshold(q: real, c: int, r: int, f: int)
    requires r > 0 && q * r as real == c as real
    ensures q * 10000.0 >= f as real - 0.5 <==> 20000 * c >= (2 * f - 1) * r
    ensures q * 10000.0 > f as real - 0.5 <==> 20000 * c > (2 * f - 1) * r
  {
    var d := q * 20000.0 - (2 * f - 1) as real;
    assert d * r as real == (20000 * c - (2 * f - 1) * r) as real;
  }

  lemma {:induction false} SumWithout(costs: seq<int>, i: nat)
    requires i < |costs|
    ensures Sum(costs) == costs[i] + Sum(costs[..i] + costs[i + 1..])
  {
    if i == 0 {
      assert costs[..0] + costs[1..] == costs[1..];
    } else {
      SumWithout(costs[1..], i - 1);
      assert costs[..i] + costs[i + 1..] == [costs[0]] + (costs[1..][..i - 1] + costs[1..][i..]);
    }
  }

  lemma MultisetWithout(costs: seq<int>, i: nat)
    requires i < |costs|
    ensures multiset(costs[..i] + costs[i + 1..]) == multiset(costs) - multiset{costs[i]}
  {
    assert costs == costs[..i] + [costs[i]] + costs[i + 1..];
  }

  lemma Occurrence(costs: seq<int>, x: int) returns (i: nat)
    requires x in multiset(costs)
    ensures i < |costs| && costs[i] == x
  {
    i :| 0 <= i < |costs| && costs[i] == x;
  }

  lemma {:induction false} SumPermuted(a: seq<int>, b: seq<int>)
    requires multiset(a) == multiset(b)
    ensures Sum(a) == Sum(b)
    decreases |a|
  {
    if a != [] {
      var i := Occurrence(b, a[0]);
      var shorter, without := a[..0] + a[1..], b[..i] + b[i + 1..];
      assert multiset(shorter) == multiset(without) by {
        MultisetWithout(a, 0);
        MultisetWithout(b, i);
      }
      SumPermuted(shorter, without);
      SumWithout(a, 0);
      SumWithout(b, i);
    }
  }

  /** The order of the costs does not matter. */
  lemma MarginPermuted(revenue: int, a: seq<int>, b: seq<int>, floorBps: int)
    requires multiset(a) == multiset(b)
    ensures MarginScenario(revenue, a, floorBps) == MarginScenario(revenue, b, floorBps)
  {
    SumPermuted(a, b);
  }

  /** Raising one cost never raises the margin and never turns a block into a pass. */
  lemma MarginMonotone(revenue: int, costs: seq<int>, i: nat, cost: int, floorBps: int)
    requires revenue > 0 && i < |costs| && costs[i] <= cost
    ensures var before := MarginScenario(revenue, costs, floorBps).value;
      var after := MarginScenario(revenue, costs[i := cost], floorBps).value;
      after.bps <= before.bps && (after.pass ==> before.pass)
  {
    var raised := costs[i := cost];
    SumWithout(costs, i);
    SumWithout(raised, i);
    QuotientMonotone((revenue - Sum(raised)) as real, (revenue - Sum(costs)) as real, revenue as real);
  }
}
