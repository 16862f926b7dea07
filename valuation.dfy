/**
  The fair-value estimate of `calculate_refund` (app.py:71-85): the plain
  mean of the comparables' assessed values when the target has no building
  square footage, otherwise the mean weighted by closeness in size.
 */
module Valuation {
  import opened Wrappers
  import opened Eligibility

  /**
    One property's record as the comparables service sends it. Each of the
    three fields is `None` when its key is absent or holds a null (for the
    sale date, also an empty string). `otherKeys` tells whether the
    dictionary holds any key whose value the three fields do not carry:
    another key, or one of the three keys holding a null or an empty string.
   */
  datatype Record = Record(assessed: Option<real>, sqft: Option<real>, saleDate: Option<Date>, otherKeys: bool)

  /** Python's empty, and so false, dictionary: no key at all. */
  predicate IsEmpty(r: Record) {
    r.assessed.None? && r.sqft.None? && r.saleDate.None? && !r.otherKeys
  }

  /**
    The fault raised where the source reads a record's 'assessed value' and
    there is none: a `KeyError` for an absent key, a `TypeError` for a null.
   */
  datatype Fault = MissingAssessedValue

  function Abs(x: real): real {
    if x < 0.0 then -x else x
  }

  /** The weight of a comparable: 1 for an exact size match, falling as the sizes differ. */
  function Weight(targetSqft: real, compSqft: real): (w: real)
    ensures 0.0 < w <= 1.0
    ensures w == 1.0 <==> targetSqft == compSqft
  {
    1.0 / (Abs(targetSqft - compSqft) + 1.0)
  }

  /** A comparable takes part in the weighted mean only when it reports its square footage. */
  predicate Contributes(c: Record) {
    c.sqft.Some?
  }

  /** The assessed value as a number, 0 where the key is missing (a case the callers turn into a fault). */
  function AssessedOrZero(c: Record): real {
    if c.assessed.Some? then c.assessed.value else 0.0
  }

  function SumAssessed(comps: seq<Record>): real {
    if comps == [] then 0.0
    else SumAssessed(comps[..|comps| - 1]) + AssessedOrZero(comps[|comps| - 1])
  }

  /** What one comparable adds to the total weight. */
  function WeightOf(targetSqft: real, c: Record): (w: real)
    ensures w >= 0.0
    ensures w > 0.0 <==> Contributes(c)
  {
    if Contributes(c) then Weight(targetSqft, c.sqft.value) else 0.0
  }

  /** What one comparable adds to the weighted sum. */
  function WeightedValueOf(targetSqft: real, c: Record): real {
    if Contributes(c) then AssessedOrZero(c) * Weight(targetSqft, c.sqft.value) else 0.0
  }

  function TotalWeight(targetSqft: real, comps: seq<Record>): real {
    if comps == [] then 0.0
    else TotalWeight(targetSqft, comps[..|comps| - 1]) + WeightOf(targetSqft, comps[|comps| - 1])
  }

  function WeightedSum(targetSqft: real, comps: seq<Record>): real {
    if comps == [] then 0.0
    else WeightedSum(targetSqft, comps[..|comps| - 1]) + WeightedValueOf(targetSqft, comps[|comps| - 1])
  }

  /** The plain mean reads every comparable's assessed value. */
  predicate AllAssessed(comps: seq<Record>) {
    forall i :: 0 <= i < |comps| ==> comps[i].assessed.Some?
  }

  /** The weighted mean reads the assessed value of the contributing comparables only. */
  predicate ContributorsAssessed(comps: seq<Record>) {
    forall i :: 0 <= i < |comps| && Contributes(comps[i]) ==> comps[i].assessed.Some?
  }

  /** The fair value the source computes, or the fault it raises while computing it. */
  function FairValue(targetSqft: Option<real>, comps: seq<Record>): Result<real, Fault>
    requires comps != []
  {
    match targetSqft
    case None =>
      if AllAssessed(comps) then Ok(SumAssessed(comps) / (|comps| as real))
      else Err(MissingAssessedValue)
    case Some(st) =>
      if !ContributorsAssessed(comps) then Err(MissingAssessedValue)
      else if TotalWeight(st, comps) > 0.0 then Ok(WeightedSum(st, comps) / TotalWeight(st, comps))
      else Ok(0.0)
  }

  /** app.py:73-85, with the weighted loop of app.py:78-84. */
  method EstimateFairValue(targetSqft: Option<real>, comps: seq<Record>) returns (fair: Result<real, Fault>)
    requires comps != []
    ensures fair == FairValue(targetSqft, comps)
  {
    if targetSqft.None? {
      if !AllAssessed(comps) {
        return Err(MissingAssessedValue);
      }
      return Ok(SumAssessed(comps) / (|comps| as real));
    }
    var st := targetSqft.value;
    var totalWeight := 0.0;
    var weightedSum := 0.0;
    for i := 0 to |comps|
      invariant ContributorsAssessed(comps[..i])
      invariant totalWeight == TotalWeight(st, comps[..i])
      invariant weightedSum == WeightedSum(st, comps[..i])
    {
      var c := comps[i];
      assert comps[..i + 1][..i] == comps[..i];
      if c.sqft.Some? {
        if c.assessed.None? {
          assert !ContributorsAssessed(comps) by { assert Contributes(comps[i]); }
          return Err(MissingAssessedValue);
        }
        var w := Weight(st, c.sqft.value);
        totalWeight := totalWeight + w;
        weightedSum := weightedSum + c.assessed.value * w;
      }
    }
    assert comps[..|comps|] == comps;
    fair := Ok(if totalWeight > 0.0 then weightedSum / totalWeight else 0.0);
  }

  /** The total weight is positive exactly when some comparable reports its square footage. */
  lemma {:induction false} TotalWeightPositiveIff(st: real, comps: seq<Record>)
    ensures TotalWeight(st, comps) >= 0.0
    ensures TotalWeight(st, comps) > 0.0 <==> exists i :: 0 <= i < |comps| && Contributes(comps[i])
  {
    if comps != [] {
      var init := comps[..|comps| - 1];
      TotalWeightPositiveIff(st, init);
      if exists i :: 0 <= i < |init| && Contributes(init[i]) {
        var i :| 0 <= i < |init| && Contributes(init[i]);
        assert Contributes(comps[i]);
      }
      if exists i :: 0 <= i < |comps| && Contributes(comps[i]) {
        var i :| 0 <= i < |comps| && Contributes(comps[i]);
        if i < |init| {
          assert Contributes(init[i]);
        }
      }
    }
  }

  /** With no comparable reporting its size, the weighted estimate is 0. */
  lemma NoContributorsGivesZero(st: real, comps: seq<Record>)
    requires comps != []
    requires forall i :: 0 <= i < |comps| ==> !Contributes(comps[i])
    ensures FairValue(Some(st), comps) == Ok(0.0)
  {
    TotalWeightPositiveIff(st, comps);
  }

  /** A comparable assessed at `lo` or more adds at least `lo` times its weight. */
  lemma WeightedValueAbove(st: real, c: Record, lo: real)
    requires Contributes(c) ==> c.assessed.Some? && c.assessed.value >= lo
    ensures WeightedValueOf(st, c) >= lo * WeightOf(st, c)
  {
    if Contributes(c) {
      var w := Weight(st, c.sqft.value);
      assert w * (c.assessed.value - lo) >= 0.0;
    }
  }

  /** A comparable assessed at `hi` or less adds at most `hi` times its weight. */
  lemma WeightedValueBelow(st: real, c: Record, hi: real)
    requires Contributes(c) ==> c.assessed.Some? && c.assessed.value <= hi
    ensures WeightedValueOf(st, c) <= hi * WeightOf(st, c)
  {
    if Contributes(c) {
      var w := Weight(st, c.sqft.value);
      assert w * (hi - c.assessed.value) >= 0.0;
    }
  }

  lemma AddAbove(s1: real, t1: real, s2: real, t2: real, lo: real, sum: real, total: real)
    requires s1 >= lo * t1 && s2 >= lo * t2
    requires sum == s1 + s2 && total == t1 + t2
    ensures sum >= lo * total
  {
  }

  lemma AddBelow(s1: real, t1: real, s2: real, t2: real, hi: real, sum: real, total: real)
    requires s1 <= hi * t1 && s2 <= hi * t2
    requires sum == s1 + s2 && total == t1 + t2
    ensures sum <= hi * total
  {
  }

  /** Every contributing comparable is assessed at `lo` or more. */
  predicate ContributorsAtLeast(comps: seq<Record>, lo: real) {
    forall i :: 0 <= i < |comps| && Contributes(comps[i]) ==> comps[i].assessed.Some? && comps[i].assessed.value >= lo
  }

  /** Every contributing comparable is assessed at `hi` or less. */
  predicate ContributorsAtMost(comps: seq<Record>, hi: real) {
    forall i :: 0 <= i < |comps| && Contributes(comps[i]) ==> comps[i].assessed.Some? && comps[i].assessed.value <= hi
  }

  /** A lower bound on the contributors' values bounds the weighted sum by the same multiple of the weight. */
  lemma {:induction false} WeightedSumAbove(st: real, comps: seq<Record>, lo: real)
    requires ContributorsAtLeast(comps, lo)
    ensures WeightedSum(st, comps) >= lo * TotalWeight(st, comps)
  {
    if comps != [] {
      var init, c := comps[..|comps| - 1], comps[|comps| - 1];
      assert ContributorsAtLeast(init, lo) by {
        assert forall i :: 0 <= i < |init| ==> init[i] == comps[i];
      }
      WeightedSumAbove(st, init, lo);
      WeightedValueAbove(st, c, lo);
      AddAbove(WeightedSum(st, init), TotalWeight(st, init), WeightedValueOf(st, c), WeightOf(st, c), lo,
               WeightedSum(st, comps), TotalWeight(st, comps));
    }
  }

  /** An upper bound on the contributors' values bounds the weighted sum likewise. */
  lemma {:induction false} WeightedSumBelow(st: real, comps: seq<Record>, hi: real)
    requires ContributorsAtMost(comps, hi)
    ensures WeightedSum(st, comps) <= hi * TotalWeight(st, comps)
  {
    if comps != [] {
      var init, c := comps[..|comps| - 1], comps[|comps| - 1];
      assert ContributorsAtMost(init, hi) by {
        assert forall i :: 0 <= i < |init| ==> init[i] == comps[i];
      }
      WeightedSumBelow(st, init, hi);
      WeightedValueBelow(st, c, hi);
      AddBelow(WeightedSum(st, init), TotalWeight(st, init), WeightedValueOf(st, c), WeightOf(st, c), hi,
               WeightedSum(st, comps), TotalWeight(st, comps));
    }
  }

  /** A sum between `lo` and `hi` times a positive total gives a quotient between `lo` and `hi`. */
  lemma QuotientBetween(sum: real, total: real, lo: real, hi: real)
    requires total > 0.0 && lo * total <= sum <= hi * total
    ensures lo <= sum / total <= hi
  {
    var q := sum / total;
    assert q * total == sum;
    if q < lo {
      assert (lo - q) * total > 0.0;
    }
    if q > hi {
      assert (q - hi) * total > 0.0;
    }
  }

  /**
    The weighted estimate is a mean: it lies between any lower and any upper
    bound of the assessed values of the comparables that contribute.
   */
  lemma WeightedFairValueBetween(st: real, comps: seq<Record>, lo: real, hi: real)
    requires comps != []
    requires exists i :: 0 <= i < |comps| && Contributes(comps[i])
    requires ContributorsAtLeast(comps, lo) && ContributorsAtMost(comps, hi)
    ensures FairValue(Some(st), comps).Ok?
    ensures lo <= FairValue(Some(st), comps).value <= hi
  {
    assert ContributorsAssessed(comps);
    TotalWeightPositiveIff(st, comps);
    WeightedSumAbove(st, comps, lo);
    WeightedSumBelow(st, comps, hi);
    QuotientBetween(WeightedSum(st, comps), TotalWeight(st, comps), lo, hi);
  }

  /** The sum of the assessed values lies between |comps| times any lower and any upper bound. */
  lemma {:induction false} SumAssessedBetween(comps: seq<Record>, lo: real, hi: real)
    requires AllAssessed(comps)
    requires forall i :: 0 <= i < |comps| ==> lo <= comps[i].assessed.value <= hi
    ensures (|comps| as real) * lo <= SumAssessed(comps) <= (|comps| as real) * hi
  {
    if comps != [] {
      var init := comps[..|comps| - 1];
      assert forall i :: 0 <= i < |init| ==> init[i] == comps[i];
      SumAssessedBetween(init, lo, hi);
    }
  }

  /** The plain estimate is the mean of all comparables, so it lies between their bounds too. */
  lemma PlainFairValueBetween(comps: seq<Record>, lo: real, hi: real)
    requires comps != [] && AllAssessed(comps)
    requires forall i :: 0 <= i < |comps| ==> lo <= comps[i].assessed.value <= hi
    ensures FairValue(None, comps).Ok?
    ensures lo <= FairValue(None, comps).value <= hi
  {
    SumAssessedBetween(comps, lo, hi);
    QuotientBetween(SumAssessed(comps), |comps| as real, lo, hi);
  }

  /** The estimate fails exactly when a value it reads is missing. */
  lemma FairValueFaultIff(targetSqft: Option<real>, comps: seq<Record>)
    requires comps != []
    ensures FairValue(targetSqft, comps).Err?
        <==> if targetSqft.None? then !AllAssessed(comps) else !ContributorsAssessed(comps)
  {
  }

  /**
    An exact size match dominates: comparables of 1000 and 2000 square feet,
    assessed at 200000 and 300000, give a 1000-square-foot target a fair value
    within 100 of 200000.
   */
  lemma ExactMatchDominates()
    ensures var comps := [Record(Some(200000.0), Some(1000.0), None, false), Record(Some(300000.0), Some(2000.0), None, false)];
            FairValue(Some(1000.0), comps) == Ok(200500000.0 / 1002.0)
  {
    var comps := [Record(Some(200000.0), Some(1000.0), None, false), Record(Some(300000.0), Some(2000.0), None, false)];
    assert comps[..1] == [comps[0]];
    assert comps[..1][..0] == [];
    var w := Weight(1000.0, 2000.0);
    assert w == 1.0 / 1001.0;
    assert TotalWeight(1000.0, comps) == 1.0 + w;
    assert WeightedSum(1000.0, comps) == 200000.0 + 300000.0 * w;
    assert (200000.0 + 300000.0 * w) / (1.0 + w) == 200500000.0 / 1002.0;
  }

  /** A comparable without square footage changes neither the total weight nor the weighted sum. */
  lemma NonContributorIgnored(st: real, comps: seq<Record>, c: Record)
    requires comps != [] && !Contributes(c)
    ensures FairValue(Some(st), comps + [c]) == FairValue(Some(st), comps)
  {
    var more := comps + [c];
    assert more[..|more| - 1] == comps;
    assert ContributorsAssessed(more) <==> ContributorsAssessed(comps) by {
      assert forall i :: 0 <= i < |comps| ==> more[i] == comps[i];
    }
  }
}
