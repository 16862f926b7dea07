/**
  Compounding a refund amount forward to the evaluation year through a
  year-to-rate table (`calculate_present_value`, app.py:108-131).
 */
module Discounting {

  /** Every year in [lo, hi) has a rate in the table. */
  predicate RatesCover(rates: map<int, real>, lo: int, hi: int) {
    forall y :: lo <= y < hi ==> y in rates
  }

  /** The growth factor over [lo, hi): the product of (1 + rate) for each year, 1 for an empty range. */
  function Growth(rates: map<int, real>, lo: int, hi: int): real
    requires RatesCover(rates, lo, hi)
    decreases hi - lo
  {
    if hi <= lo then 1.0 else Growth(rates, lo, hi - 1) * (1.0 + rates[hi - 1])
  }

  /** The amount compounded from `year` up to (not including) `maxRange`; 0 when any rate is missing. */
  function PresentValue(amount: real, year: int, rates: map<int, real>, maxRange: int): real {
    if RatesCover(rates, year, maxRange) then amount * Growth(rates, year, maxRange) else 0.0
  }

  /** The loop of app.py:121-131, returning 0 at the first year without a rate. */
  method CalculatePresentValue(amount: real, year: int, rates: map<int, real>, maxRange: int)
    returns (pv: real)
    ensures pv == PresentValue(amount, year, rates, maxRange)
  {
    var n := 1;  // counts the factors; the result does not depend on it
    var product := 1.0;
    var i := year;
    while i < maxRange
      invariant year <= i && (i <= maxRange || i == year)
      invariant RatesCover(rates, year, i)
      invariant product == Growth(rates, year, i)
      invariant n == i - year + 1
    {
      if i in rates {
        product := product * (1.0 + rates[i]);
        n := n + 1;
      } else {
        assert !RatesCover(rates, year, maxRange) by { assert year <= i < maxRange; }
        return 0.0;
      }
      i := i + 1;
    }
    pv := amount * product;
  }

  /** One missing rate anywhere in the range zeroes the whole value; no partial product escapes. */
  lemma MissingRateGivesZero(amount: real, year: int, rates: map<int, real>, maxRange: int, gap: int)
    requires year <= gap < maxRange && gap !in rates
    ensures PresentValue(amount, year, rates, maxRange) == 0.0
  {
  }

  /** With no year to compound over, the amount comes back unchanged. */
  lemma EmptyRangeKeepsAmount(amount: real, year: int, rates: map<int, real>, maxRange: int)
    requires maxRange <= year
    ensures PresentValue(amount, year, rates, maxRange) == amount
  {
  }

  /** The growth over a range is the product of the growths over its two halves. */
  lemma {:induction false} GrowthSplit(rates: map<int, real>, lo: int, mid: int, hi: int)
    requires lo <= mid <= hi
    requires RatesCover(rates, lo, hi)
    ensures Growth(rates, lo, hi) == Growth(rates, lo, mid) * Growth(rates, mid, hi)
    decreases hi - mid
  {
    if mid < hi {
      GrowthSplit(rates, lo, mid, hi - 1);
    }
  }

  /**
    Compounding is year by year: the value from `year` is the value from
    `year + 1` of the amount grown by one year's rate.
   */
  lemma CompoundOneYear(amount: real, year: int, rates: map<int, real>, maxRange: int)
    requires year < maxRange && year in rates
    ensures PresentValue(amount, year, rates, maxRange)
         == PresentValue(amount * (1.0 + rates[year]), year + 1, rates, maxRange)
  {
    if RatesCover(rates, year, maxRange) {
      GrowthSplit(rates, year, year + 1, maxRange);
    } else {
      assert !RatesCover(rates, year + 1, maxRange);
    }
  }

  /** Non-negative rates never shrink the amount. */
  lemma {:induction false} GrowthAtLeastOne(rates: map<int, real>, lo: int, hi: int)
    requires RatesCover(rates, lo, hi)
    requires forall y :: lo <= y < hi ==> rates[y] >= 0.0
    ensures Growth(rates, lo, hi) >= 1.0
    decreases hi - lo
  {
    if lo < hi {
      GrowthAtLeastOne(rates, lo, hi - 1);
      var g := Growth(rates, lo, hi - 1);
      var f := 1.0 + rates[hi - 1];
      assert g * f >= g * 1.0 by { assert g * (f - 1.0) >= 0.0; }
    }
  }

  /** Rates above -1 keep the growth factor positive. */
  lemma {:induction false} GrowthPositive(rates: map<int, real>, lo: int, hi: int)
    requires RatesCover(rates, lo, hi)
    requires forall y :: lo <= y < hi ==> rates[y] > -1.0
    ensures Growth(rates, lo, hi) > 0.0
    decreases hi - lo
  {
    if lo < hi {
      GrowthPositive(rates, lo, hi - 1);
      var g := Growth(rates, lo, hi - 1);
      var f := 1.0 + rates[hi - 1];
      assert g * f > 0.0 by { assert g > 0.0 && f > 0.0; }
      assert Growth(rates, lo, hi) == g * f;
    }
  }

  /** With a full series of non-negative rates, a non-negative amount is never discounted below itself. */
  lemma PresentValueAtLeastAmount(amount: real, year: int, rates: map<int, real>, maxRange: int)
    requires amount >= 0.0
    requires RatesCover(rates, year, maxRange)
    requires forall y :: year <= y < maxRange ==> rates[y] >= 0.0
    ensures PresentValue(amount, year, rates, maxRange) >= amount
  {
    GrowthAtLeastOne(rates, year, maxRange);
    var g := Growth(rates, year, maxRange);
    assert amount * g >= amount * 1.0 by { assert amount * (g - 1.0) >= 0.0; }
  }

  /** With rates above -1, a non-negative amount has a non-negative value, complete series or not. */
  lemma PresentValueNonNegative(amount: real, year: int, rates: map<int, real>, maxRange: int)
    requires amount >= 0.0
    requires forall y :: y in rates ==> rates[y] > -1.0
    ensures PresentValue(amount, year, rates, maxRange) >= 0.0
  {
    if RatesCover(rates, year, maxRange) {
      GrowthPositive(rates, year, maxRange);
    }
  }
}
