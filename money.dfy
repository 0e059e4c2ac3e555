/**
 * Exact decimal amounts as Python's `decimal.Decimal` computes them in the payroll run.
 * An amount of scale k is an integer count of 10^-k units: a `Numeric(·, 2)` value
 * such as a salary, a rate or a number of hours is held in hundredths.
 */
module Money {

  /** Power of ten. */
  function Pow10(k: nat): (p: nat)
    ensures p >= 1
  {
    if k == 0 then 1 else 10 * Pow10(k - 1)
  }

  /**
   * `x` is the integer nearest to n / d, and the even one of the two when n / d lies
   * exactly halfway: the ROUND_HALF_EVEN mode of Python's default decimal context.
   */
  ghost predicate IsHalfEvenRounding(n: int, d: int, x: int)
    requires d > 0
  {
    && -d <= 2 * (n - x * d) <= d
    && ((2 * (n - x * d) == d || 2 * (n - x * d) == -d) ==> x % 2 == 0)
  }

  /** n / d rounded to an integer, ties to even. */
  function RoundHalfEven(n: int, d: int): (x: int)
    requires d > 0
    ensures IsHalfEvenRounding(n, d, x)
  {
    var q, r := n / d, n % d;
    assert n - q * d == r;
    assert n - (q + 1) * d == r - d;
    if 2 * r < d then q
    else if 2 * r > d then q + 1
    else if q % 2 == 0 then q
    else q + 1
  }

  /** The rounding is determined by the two conditions of IsHalfEvenRounding. */
  lemma HalfEvenRoundingIsUnique(n: int, d: int, x: int, y: int)
    requires d > 0
    requires IsHalfEvenRounding(n, d, x) && IsHalfEvenRounding(n, d, y)
    ensures x == y
  {
    if x < y {
      TwoRoundingsAreATie(n, d, x, y);
      assert false;
    } else if y < x {
      TwoRoundingsAreATie(n, d, y, x);
      assert false;
    }
  }

  /** Two different integers within half of d of n / d are neighbours, and n / d lies halfway. */
  lemma TwoRoundingsAreATie(n: int, d: int, lo: int, hi: int)
    requires d > 0 && lo < hi
    requires -d <= 2 * (n - lo * d) <= d && -d <= 2 * (n - hi * d) <= d
    ensures hi == lo + 1 && 2 * (n - lo * d) == d && 2 * (n - hi * d) == -d
  {
    assert hi * d - lo * d == (hi - lo) * d by { DistributeDifference(hi, lo, d); }
    MulMonotone(hi - lo, d);
    MulAtMostOnce(hi - lo, d);
  }

  lemma DistributeDifference(a: int, b: int, d: int)
    ensures a * d - b * d == (a - b) * d
  {
  }

  lemma MulMonotone(k: int, d: int)
    requires k >= 1 && d > 0
    ensures k * d >= d
  {
  }

  lemma MulAtMostOnce(k: int, d: int)
    requires k >= 1 && d > 0 && k * d <= d
    ensures k == 1
  {
  }

  /** Rounding an exact multiple of d gives the quotient back. */
  lemma RoundingExactIsIdentity(m: int, d: int)
    requires d > 0
    ensures RoundHalfEven(m * d, d) == m
  {
    assert IsHalfEvenRounding(m * d, d, m);
    HalfEvenRoundingIsUnique(m * d, d, m, RoundHalfEven(m * d, d));
  }

  /**
   * `value.quantize(Decimal("0.01"))` for an amount of the given scale: the amount
   * rounded to cents, ties to even. At scale 2 it leaves the amount as it is.
   */
  function Quantize(value: int, scale: nat): (cents: int)
    requires scale >= 2
    ensures IsHalfEvenRounding(value, Pow10(scale - 2), cents)
    ensures scale == 2 ==> cents == value
  {
    RoundHalfEven(value, Pow10(scale - 2))
  }

  /** The withholding rates, in hundredths: FED = 0.10, STATE = 0.05, OTHER = 0.03. */
  const FederalRate := 10
  const StateRate := 5
  const OtherRate := 3

  /** `(gross * rate).quantize(Decimal("0.01"))` for a gross in cents and a rate in hundredths. */
  function Tax(gross: int, rate: int): (cents: int)
    ensures -50 <= 100 * cents - gross * rate <= 50
    ensures IsHalfEvenRounding(gross * rate, 100, cents)
  {
    Quantize(gross * rate, 4)
  }

  /** `(hours * rate).quantize(Decimal("0.01"))`: hours in hundredths times a rate in cents. */
  function HourlyGross(hours: int, rate: int): (cents: int)
    ensures IsHalfEvenRounding(hours * rate, 100, cents)
  {
    Quantize(hours * rate, 4)
  }

  datatype Withholding = Withholding(federal: int, state: int, other: int, net: int)

  /**
   * The three deductions from a gross amount, each rounded to cents on its own,
   * and the net pay left after subtracting the rounded amounts.
   */
  function Withhold(gross: int): (w: Withholding)
    ensures IsHalfEvenRounding(gross * FederalRate, 100, w.federal)
    ensures IsHalfEvenRounding(gross * StateRate, 100, w.state)
    ensures IsHalfEvenRounding(gross * OtherRate, 100, w.other)
    ensures w.net == gross - w.federal - w.state - w.other
  {
    var federal := Tax(gross, FederalRate);
    var state := Tax(gross, StateRate);
    var other := Tax(gross, OtherRate);
    Withholding(federal, state, other, Quantize(gross - federal - state - other, 2))
  }

  /**
   * Net pay is within a cent and a half of 82% of gross, and for a non-negative
   * gross every deduction and the net pay lie between zero and the gross.
   */
  lemma WithholdBounds(gross: int)
    ensures -150 <= 100 * Withhold(gross).net - 82 * gross <= 150
    ensures gross >= 0 ==> 0 <= Withhold(gross).federal <= gross
    ensures gross >= 0 ==> 0 <= Withhold(gross).state <= gross
    ensures gross >= 0 ==> 0 <= Withhold(gross).other <= gross
    ensures gross >= 0 ==> 0 <= Withhold(gross).net <= gross
  {
    var w := Withhold(gross);
    assert -50 <= 100 * w.federal - gross * 10 <= 50;
    assert -50 <= 100 * w.state - gross * 5 <= 50;
    assert -50 <= 100 * w.other - gross * 3 <= 50;
    if gross == 1 {
      assert w.federal == 0 && w.state == 0 && w.other == 0;
    }
  }

  /** A salary of 5000.00 withholds 500.00, 250.00 and 150.00 and pays 4100.00. */
  lemma SalaryExample()
    ensures Withhold(500000) == Withholding(50000, 25000, 15000, 410000)
  {
    HalfEvenRoundingIsUnique(500000 * 10, 100, 50000, Withhold(500000).federal);
    HalfEvenRoundingIsUnique(500000 * 5, 100, 25000, Withhold(500000).state);
    HalfEvenRoundingIsUnique(500000 * 3, 100, 15000, Withhold(500000).other);
  }

  /**
   * 37.50 hours at 25.00 gross 937.50; 5% of it, 46.875, rounds up to the even 46.88,
   * and 3% of it, 28.125, rounds down to the even 28.12, leaving 768.75.
   */
  lemma HourlyExample()
    ensures HourlyGross(3750, 2500) == 93750
    ensures Withhold(93750) == Withholding(9375, 4688, 2812, 76875)
  {
    RoundingExactIsIdentity(93750, 100);
    assert 3750 * 2500 == 93750 * 100;
    HalfEvenRoundingIsUnique(93750 * 10, 100, 9375, Withhold(93750).federal);
    HalfEvenRoundingIsUnique(93750 * 5, 100, 4688, Withhold(93750).state);
    HalfEvenRoundingIsUnique(93750 * 3, 100, 2812, Withhold(93750).other);
  }

  /**
   * Rounding each deduction on its own differs from rounding 82% of gross once:
   * on a gross of 0.05 every deduction rounds to 0.00, so the net pay is 0.05, not 0.04.
   */
  lemma ComponentwiseRoundingDiffers()
    ensures Withhold(5).net == 5
    ensures RoundHalfEven(5 * 82, 100) == 4
  {
    HalfEvenRoundingIsUnique(5 * 10, 100, 0, Withhold(5).federal);
    HalfEvenRoundingIsUnique(5 * 5, 100, 0, Withhold(5).state);
    HalfEvenRoundingIsUnique(5 * 3, 100, 0, Withhold(5).other);
    HalfEvenRoundingIsUnique(5 * 82, 100, 4, RoundHalfEven(5 * 82, 100));
  }
}
