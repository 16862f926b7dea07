/**
  The refund estimate of `calculate_refund` (app.py:47-105): look up the
  target, take every other entry as a comparable, estimate the fair value,
  and, for an over-assessed target with a sale date, sum the refund amount
  compounded forward from each eligible year.
 */
module Refund {
  import opened Wrappers
  import opened Eligibility
  import opened Discounting
  import opened Valuation

  type Pin = string

  /** The data the comparables service returns: a dictionary keyed by PIN, in its own order. */
  type ComparablesData = seq<(Pin, Record)>

  datatype RefundResult = RefundResult(pin: Pin, yearsEligible: int, totalRefund: real)

  /** The result every early exit returns. */
  function ZeroResult(pin: Pin): RefundResult {
    RefundResult(pin, 0, 0.0)
  }

  /** `dict.get`: the record stored under `pin`, if any. */
  function Lookup(data: ComparablesData, pin: Pin): (r: Option<Record>)
    ensures r.Some? <==> exists i :: 0 <= i < |data| && data[i].0 == pin
    ensures r.Some? ==> exists i :: 0 <= i < |data| && data[i] == (pin, r.value)
  {
    if data == [] then None
    else if data[0].0 == pin then Some(data[0].1)
    else Lookup(data[1..], pin)
  }

  /** The records of every entry whose PIN is not `pin`, in order (app.py:66). */
  function Comparables(data: ComparablesData, pin: Pin): (comps: seq<Record>)
    ensures |comps| <= |data|
    ensures forall c :: c in comps ==> exists i :: 0 <= i < |data| && data[i] == (data[i].0, c) && data[i].0 != pin
  {
    if data == [] then []
    else (if data[0].0 != pin then [data[0].1] else []) + Comparables(data[1..], pin)
  }

  /**
    The present values of `amount` for the refund years `evalYear - 1` down to
    `evalYear - years`, summed.
   */
  function DiscountedTotal(amount: real, years: nat, rates: map<int, real>, evalYear: int): real {
    if years == 0 then 0.0
    else DiscountedTotal(amount, years - 1, rates, evalYear)
         + PresentValue(amount, evalYear - years, rates, evalYear)
  }

  /** What `calculate_refund` returns for `pin`, or the fault it raises. */
  function ComputeRefund(pin: Pin, data: ComparablesData, rates: map<int, real>, today: Date)
    : Result<RefundResult, Fault>
  {
    var found := Lookup(data, pin);
    if found.None? || IsEmpty(found.value) then Ok(ZeroResult(pin))
    else
      var target := found.value;
      var comps := Comparables(data, pin);
      if comps == [] then Ok(ZeroResult(pin))
      else
        var fair := FairValue(target.sqft, comps);
        if fair.Err? then Err(fair.error)
        else if target.assessed.None? then Err(MissingAssessedValue)
        else if target.assessed.value <= fair.value then Ok(ZeroResult(pin))
        else if target.saleDate.None? then Ok(ZeroResult(pin))
        else
          var years := FullCalendarYears(target.saleDate.value, today);
          var amount := target.assessed.value - fair.value;
          Ok(RefundResult(pin, years, DiscountedTotal(amount, years, rates, today.year)))
  }

  /** app.py:59-105, with the evaluation date and the rate table passed in. */
  method CalculateRefund(pin: Pin, data: ComparablesData, rates: map<int, real>, today: Date)
    returns (result: Result<RefundResult, Fault>)
    ensures result == ComputeRefund(pin, data, rates, today)
  {
    var found := Lookup(data, pin);
    if found.None? || IsEmpty(found.value) {
      return Ok(ZeroResult(pin));
    }
    var target := found.value;
    var comps := Comparables(data, pin);
    if comps == [] {
      return Ok(ZeroResult(pin));
    }
    var fair := EstimateFairValue(target.sqft, comps);
    if fair.Err? {
      return Err(fair.error);
    }
    if target.assessed.None? {
      return Err(MissingAssessedValue);
    }
    if target.assessed.value <= fair.value {
      return Ok(ZeroResult(pin));
    }
    if target.saleDate.None? {
      return Ok(ZeroResult(pin));
    }
    var years := FullCalendarYears(target.saleDate.value, today);
    var total := 0.0;
    var amount := target.assessed.value - fair.value;
    for offset := 1 to years + 1
      invariant total == DiscountedTotal(amount, offset - 1, rates, today.year)
    {
      var pv := CalculatePresentValue(amount, today.year - offset, rates, today.year);
      total := total + pv;
    }
    return Ok(RefundResult(pin, years, total));
  }

  /** There are no comparables exactly when every entry is stored under the target's PIN. */
  lemma {:induction false} NoComparablesIff(data: ComparablesData, pin: Pin)
    ensures Comparables(data, pin) == [] <==> forall i :: 0 <= i < |data| ==> data[i].0 == pin
  {
    if data != [] {
      NoComparablesIff(data[1..], pin);
      assert forall i :: 1 <= i < |data| ==> data[i] == data[1..][i - 1];
    }
  }

  /** Every entry under another PIN is among the comparables. */
  lemma {:induction false} OthersAreComparables(data: ComparablesData, pin: Pin, i: int)
    requires 0 <= i < |data| && data[i].0 != pin
    ensures data[i].1 in Comparables(data, pin)
  {
    if i > 0 {
      OthersAreComparables(data[1..], pin, i - 1);
    }
  }

  /** The target is over-assessed: it has a record, comparables, and an assessed value above their fair value. */
  predicate OverAssessed(data: ComparablesData, pin: Pin) {
    var found := Lookup(data, pin);
    found.Some? && !IsEmpty(found.value) && found.value.assessed.Some?
    && var comps := Comparables(data, pin);
       comps != [] && FairValue(found.value.sqft, comps).Ok?
       && found.value.assessed.value > FairValue(found.value.sqft, comps).value
  }

  /** The refund amount of an over-assessed target: its assessed value less the fair value. */
  function RefundAmount(data: ComparablesData, pin: Pin): (amount: real)
    requires OverAssessed(data, pin)
    ensures amount > 0.0
  {
    var target := Lookup(data, pin).value;
    target.assessed.value - FairValue(target.sqft, Comparables(data, pin)).value
  }

  /** An absent or empty target record gives the zero result. */
  lemma TargetMissingGivesZero(pin: Pin, data: ComparablesData, rates: map<int, real>, today: Date)
    requires (forall i :: 0 <= i < |data| ==> data[i].0 != pin)
          || (forall i :: 0 <= i < |data| && data[i].0 == pin ==> IsEmpty(data[i].1))
    ensures ComputeRefund(pin, data, rates, today) == Ok(ZeroResult(pin))
  {
  }

  /** A target with no other entry beside it gives the zero result. */
  lemma NoComparablesGivesZero(pin: Pin, data: ComparablesData, rates: map<int, real>, today: Date)
    requires forall i :: 0 <= i < |data| ==> data[i].0 == pin
    ensures ComputeRefund(pin, data, rates, today) == Ok(ZeroResult(pin))
  {
    NoComparablesIff(data, pin);
  }

  /**
    A result other than the zero result needs an over-assessed target with a
    sale date; and then the result counts the eligible years from that date and
    sums that many discounted refund amounts.
   */
  lemma RefundOnlyWhenOverAssessed(pin: Pin, data: ComparablesData, rates: map<int, real>, today: Date)
    requires ComputeRefund(pin, data, rates, today).Ok?
    ensures var r := ComputeRefund(pin, data, rates, today).value;
            r.pin == pin && 0 <= r.yearsEligible <= MaxEligibleYears
            && (r != ZeroResult(pin) ==> OverAssessed(data, pin) && Lookup(data, pin).value.saleDate.Some?)
  {
  }

  /** An over-assessed target with a sale date is refunded its amount, compounded per eligible year. */
  lemma RefundWhenOverAssessed(pin: Pin, data: ComparablesData, rates: map<int, real>, today: Date)
    requires OverAssessed(data, pin) && Lookup(data, pin).value.saleDate.Some?
    ensures var years := FullCalendarYears(Lookup(data, pin).value.saleDate.value, today);
            ComputeRefund(pin, data, rates, today)
            == Ok(RefundResult(pin, years, DiscountedTotal(RefundAmount(data, pin), years, rates, today.year)))
  {
  }

  /** Without a rate for the year before the evaluation year, every refund year's value is 0. */
  lemma {:induction false} LatestRateMissingZeroesTotal(amount: real, years: nat, rates: map<int, real>, evalYear: int)
    requires evalYear - 1 !in rates
    ensures DiscountedTotal(amount, years, rates, evalYear) == 0.0
  {
    if years > 0 {
      LatestRateMissingZeroesTotal(amount, years - 1, rates, evalYear);
      MissingRateGivesZero(amount, evalYear - years, rates, evalYear, evalYear - 1);
    }
  }

  /** With rates above -1 the total of a non-negative amount is non-negative. */
  lemma {:induction false} DiscountedTotalNonNegative(amount: real, years: nat, rates: map<int, real>, evalYear: int)
    requires amount >= 0.0
    requires forall y :: y in rates ==> rates[y] > -1.0
    ensures DiscountedTotal(amount, years, rates, evalYear) >= 0.0
  {
    if years > 0 {
      DiscountedTotalNonNegative(amount, years - 1, rates, evalYear);
      PresentValueNonNegative(amount, evalYear - years, rates, evalYear);
    }
  }

  /** With a full series of non-negative rates, each refund year is worth at least the amount. */
  lemma {:induction false} DiscountedTotalAtLeast(amount: real, years: nat, rates: map<int, real>, evalYear: int)
    requires amount >= 0.0
    requires RatesCover(rates, evalYear - years, evalYear)
    requires forall y :: evalYear - years <= y < evalYear ==> rates[y] >= 0.0
    ensures DiscountedTotal(amount, years, rates, evalYear) >= (years as real) * amount
  {
    if years > 0 {
      DiscountedTotalAtLeast(amount, years - 1, rates, evalYear);
      PresentValueAtLeastAmount(amount, evalYear - years, rates, evalYear);
    }
  }

  /** With rates above -1 every result reports a non-negative refund over at most four years. */
  lemma RefundNonNegative(pin: Pin, data: ComparablesData, rates: map<int, real>, today: Date)
    requires forall y :: y in rates ==> rates[y] > -1.0
    requires ComputeRefund(pin, data, rates, today).Ok?
    ensures ComputeRefund(pin, data, rates, today).value.totalRefund >= 0.0
    ensures 0 <= ComputeRefund(pin, data, rates, today).value.yearsEligible <= MaxEligibleYears
  {
    if OverAssessed(data, pin) && Lookup(data, pin).value.saleDate.Some? {
      var years := FullCalendarYears(Lookup(data, pin).value.saleDate.value, today);
      DiscountedTotalNonNegative(RefundAmount(data, pin), years, rates, today.year);
    }
  }

  /** The present values of `amount` for the refund years in [first, last), summed from the earliest. */
  function SumOverYears(amount: real, first: int, last: int, rates: map<int, real>, evalYear: int): real
    decreases last - first
  {
    if last <= first then 0.0
    else PresentValue(amount, first, rates, evalYear) + SumOverYears(amount, first + 1, last, rates, evalYear)
  }

  /** The total covers exactly the refund years evalYear - years up to evalYear - 1, once each. */
  lemma {:induction false} DiscountedTotalOverYears(amount: real, years: nat, rates: map<int, real>, evalYear: int)
    ensures DiscountedTotal(amount, years, rates, evalYear)
         == SumOverYears(amount, evalYear - years, evalYear, rates, evalYear)
  {
    if years > 0 {
      DiscountedTotalOverYears(amount, years - 1, rates, evalYear);
    }
  }

  /**
    Past the lookups, an assessed value not above the fair value, or a missing
    sale date, gives the zero result.
   */
  lemma LateExitsGiveZero(pin: Pin, data: ComparablesData, rates: map<int, real>, today: Date)
    requires Lookup(data, pin).Some? && !IsEmpty(Lookup(data, pin).value)
    requires Lookup(data, pin).value.assessed.Some?
    requires Comparables(data, pin) != []
    requires FairValue(Lookup(data, pin).value.sqft, Comparables(data, pin)).Ok?
    requires Lookup(data, pin).value.assessed.value
             <= FairValue(Lookup(data, pin).value.sqft, Comparables(data, pin)).value
          || Lookup(data, pin).value.saleDate.None?
    ensures ComputeRefund(pin, data, rates, today) == Ok(ZeroResult(pin))
  {
  }

  /** A single entry is a comparable exactly when its PIN is not the target's. */
  lemma ComparablesOfOne(entry: (Pin, Record), pin: Pin)
    ensures Comparables([entry], pin) == if entry.0 != pin then [entry.1] else []
  {
    assert [entry][1..] == [];
  }

  /**
    The comparables of two runs of entries are those of the first followed by
    those of the second: with `ComparablesOfOne`, every other entry's record
    appears once, in order, so the plain mean divides by the right count.
   */
  lemma {:induction false} ComparablesConcat(a: ComparablesData, b: ComparablesData, pin: Pin)
    ensures Comparables(a + b, pin) == Comparables(a, pin) + Comparables(b, pin)
  {
    if a != [] {
      assert (a + b)[0] == a[0] && (a + b)[1..] == a[1..] + b;
      ComparablesConcat(a[1..], b, pin);
      var head := if a[0].0 != pin then [a[0].1] else [];
      assert Comparables(a + b, pin) == head + (Comparables(a[1..], pin) + Comparables(b, pin));
      assert Comparables(a, pin) == head + Comparables(a[1..], pin);
    } else {
      assert a + b == b;
    }
  }

  /** A target record holding some key is not empty, however little it carries: it reaches the over-assessment test. */
  lemma NonEmptyTargetWithoutValueFaults(pin: Pin, other: Pin, rates: map<int, real>, today: Date)
    requires pin != other
    ensures var data := [(pin, Record(None, None, None, true)), (other, Record(Some(1.0), None, None, false))];
            ComputeRefund(pin, data, rates, today) == Err(MissingAssessedValue)
  {
    var data := [(pin, Record(None, None, None, true)), (other, Record(Some(1.0), None, None, false))];
    assert data[1..][1..] == [];
    assert Comparables(data, pin) == [data[1].1];
  }
}
