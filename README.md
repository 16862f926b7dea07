# Property-tax refund estimate, modelled in Dafny

This project models the valuation-and-discounting core of a small property-tax
refund service (`app.py`). Given the records of a target property (found by
its PIN) and of its comparables, it:

- estimates a fair assessed value from the comparables, either as a plain mean
  or as a mean weighted by closeness in building square footage;
- decides whether the target is over-assessed;
- counts the full calendar years of refund eligibility since the sale, capped
  at four;
- compounds the refund amount forward, through a year-to-rate table, from each
  eligible year to the evaluation year, and sums the results.

Modules, one per component:

- `Wrappers` (`wrappers.dfy`): `Option` (Python's `None`) and `Result` (a value
  or the exception the source would raise).
- `Eligibility` (`eligibility.dfy`): dates and `calculate_full_calendar_years`.
  This is a pure function. It is also checked against a reference count: the
  number of calendar years lying wholly between the two dates.
- `Discounting` (`discounting.dfy`): `calculate_present_value`. The method
  `CalculatePresentValue` keeps the source's loop and early `return 0`. It is
  proved equal to the function `PresentValue`, defined by the product `Growth`.
- `Valuation` (`valuation.dfy`): the record shape and the fair-value estimate.
  The method `EstimateFairValue` keeps the weighted loop. It is proved equal to
  the function `FairValue`, defined by `TotalWeight` and `WeightedSum`.
- `Refund` (`refund.dfy`): `calculate_refund`. The method `CalculateRefund`
  keeps the refund-sum loop. It is proved equal to the function
  `ComputeRefund`.

Modelling choices:

- Amounts, sizes and rates are exact `real`s, not floats.
- The comparables dictionary is an ordered sequence of (PIN, record) pairs.
  `Lookup` returns the first record under a PIN, as `dict.get` does for a
  dictionary's unique key.
- A record carries its three keys ('assessed value', 'building sqft', 'sale
  date') as optional fields. A field is `None` when the key is absent or holds
  a null; for the sale date, also when it holds an empty string. A flag says
  whether the dictionary holds any key those fields do not carry. The record
  is the empty, falsy dictionary only when all three fields are `None` and the
  flag is false.
- Reading a record's 'assessed value' fails in the source when the key is
  absent (`KeyError`) or holds a null (`TypeError`). Here both are
  `Err(MissingAssessedValue)`, at the same points:
  - for any comparable in the plain mean;
  - for a comparable that reports square footage in the weighted mean;
  - for a non-empty target at the over-assessment test.
- The evaluation date (`datetime.now()` in the source) and the rate table (a
  module global in the source) are parameters.

The docstring of `calculate_full_calendar_years` (app.py:19, app.py:26)
promises "the number of full calendar years between two dates". The code
departs from that in three ways, and the model follows the code:

- A sale dated after the evaluation date still gets the January 1 and
  December 31 bonuses, so it can be credited up to 2 years
  (`BonusesOnlyWhenNoYearBetween`).
- The count can drop as the evaluation date advances. A mid-year sale's count
  goes from 1 on December 31 of the sale year to 0 on the next January 1
  (`NotMonotoneAcrossYearEnd`).
- In the sale year itself, a bonus credits one year more than has wholly
  elapsed (`SameYearCountsOneExtra`). The floor-then-bonus order is kept
  exactly as written.

## Model

| member | source | states |
|---|---|---|
| `Eligibility.FullCalendarYears` | app.py:17-45 | the number of eligible years is always between 0 and 4 |
| `Eligibility.SameYearGetsBothBonuses` | app.py:33-43 | a Jan 1 sale evaluated on Dec 31 of the same year yields 2: the floor is on the base only and both bonuses are added after it |
| `Eligibility.BonusesOnlyWhenNoYearBetween` | app.py:33-43 | when the evaluation year is at most one past the sale year, the result is the number of bonuses that apply (Jan 1 sale, Dec 31 evaluation), even for a sale after the evaluation date |
| `Eligibility.NoBonusShortSpanIsZero` | app.py:33-45 | without either bonus and with `end_year <= start_year + 1` the result is 0 |
| `Eligibility.NoBonusLongSpanIsCapped` | app.py:33-45 | without either bonus and with `end_year - start_year - 1 >= 4` the result is exactly 4 |
| `Eligibility.MonotoneInEvaluationYear` | app.py:28-45 | the same evaluation day in a later year never gives fewer years |
| `Eligibility.AntitoneInSaleYear` | app.py:28-45 | the same sale day in a later year never gives more years |
| `Eligibility.AgreesWithCoveredYears` | app.py:17-45 | for valid dates with the sale year before the evaluation year, the result is the number of calendar years lying wholly between the two dates, capped at 4 |
| `Eligibility.SameYearCountsOneExtra` | app.py:33-43 | within the sale year, a bonus makes the result one more than the number of calendar years wholly elapsed |
| `Eligibility.NotMonotoneAcrossYearEnd` | app.py:33-43 | a mid-year sale gets 1 year on Dec 31 of the sale year and 0 on the following Jan 1 |
| `Eligibility.WorkedCases` | app.py:28-45 | sale 1/1/2020 evaluated 12/31/2024 gives the cap 4; sale 6/15/2023 evaluated 6/15/2024 gives 0 |
| `Discounting.CalculatePresentValue` | app.py:108-131 | the loop returns the amount times the product of (1 + rate) over [year, max_range), or 0 if some year in that range has no rate |
| `Discounting.MissingRateGivesZero` | app.py:123-129 | one missing rate year in the range makes the value exactly 0, never a partial product |
| `Discounting.EmptyRangeKeepsAmount` | app.py:121-131 | when `year >= max_range` the amount is returned unchanged |
| `Discounting.GrowthSplit` | app.py:123-127 | the product over a range is the product of the products over its two parts |
| `Discounting.CompoundOneYear` | app.py:123-127 | compounding from `year` equals compounding the amount grown by that year's rate from `year + 1` |
| `Discounting.PresentValueAtLeastAmount` | app.py:121-131 | with every rate present and non-negative, a non-negative amount never shrinks |
| `Discounting.PresentValueNonNegative` | app.py:121-131 | with rates above -1, a non-negative amount has a non-negative value |
| `Valuation.Weight` | app.py:82 | each weight lies in (0, 1] and is 1 exactly for an equal square footage |
| `Valuation.EstimateFairValue` | app.py:71-85 | the loop computes the plain mean when the target has no square footage, otherwise the weighted sum over the total weight (0 when the total is 0), or the fault for a missing assessed value |
| `Valuation.TotalWeightPositiveIff` | app.py:78-85 | the total weight is non-negative, and positive exactly when some comparable reports its square footage |
| `Valuation.NoContributorsGivesZero` | app.py:85 | when no comparable reports square footage the weighted estimate is 0 |
| `Valuation.WeightedFairValueBetween` | app.py:78-85 | the weighted estimate lies between any lower and upper bound of the contributing comparables' assessed values |
| `Valuation.PlainFairValueBetween` | app.py:74-75 | the plain mean lies between any lower and upper bound of all comparables' assessed values |
| `Valuation.FairValueFaultIff` | app.py:73-85 | the estimate raises exactly when a value it reads is missing: any comparable's for the plain mean, a contributing comparable's for the weighted mean |
| `Valuation.NonContributorIgnored` | app.py:78-80 | a comparable without square footage does not change the weighted estimate |
| `Valuation.ExactMatchDominates` | app.py:78-85 | comparables 1000 sqft at 200000 and 2000 sqft at 300000 give a 1000-sqft target 200500000/1002, about 200099.8 |
| `Refund.Lookup` | app.py:59 | a record is found exactly when some entry has the PIN, and it is that entry's record |
| `Refund.Comparables` | app.py:66 | every comparable is the record of an entry under another PIN |
| `Refund.ComparablesOfOne` | app.py:66 | a single entry yields its record as a comparable exactly when its PIN is not the target's |
| `Refund.ComparablesConcat` | app.py:66 | the comparables of two runs of entries are those of the first followed by those of the second, so each other entry appears once, in order |
| `Refund.OthersAreComparables` | app.py:66 | every entry under another PIN is a comparable |
| `Refund.NoComparablesIff` | app.py:66-69 | there are no comparables exactly when every entry is under the target's PIN |
| `Refund.RefundAmount` | app.py:87-99 | the refund amount of an over-assessed target is strictly positive |
| `Refund.CalculateRefund` | app.py:47-105 | the method returns what `calculate_refund` returns, or its fault for a missing assessed value, for the given evaluation date and rate table |
| `Refund.TargetMissingGivesZero` | app.py:59-62 | an absent PIN, or only empty dictionaries (no key at all) under it, gives `{pin, 0, 0}` |
| `Refund.NonEmptyTargetWithoutValueFaults` | app.py:59-87 | a target dictionary that holds some key but no assessed value passes the emptiness test and faults at the over-assessment test |
| `Refund.NoComparablesGivesZero` | app.py:66-69 | no entry under another PIN gives `{pin, 0, 0}` |
| `Refund.LateExitsGiveZero` | app.py:87-92 | an assessed value not above the fair value, or a missing sale date, gives `{pin, 0, 0}` |
| `Refund.RefundOnlyWhenOverAssessed` | app.py:59-105 | every result echoes the PIN, has 0..4 years, and is not the zero result only for an over-assessed target with a sale date |
| `Refund.RefundWhenOverAssessed` | app.py:87-105 | an over-assessed target with a sale date gets the eligible years from that date and the discounted total of assessed minus fair over exactly those years |
| `Refund.DiscountedTotalOverYears` | app.py:100-103 | the total is the sum of the present values for refund years `eval_year - years` up to `eval_year - 1`, each once |
| `Refund.LatestRateMissingZeroesTotal` | app.py:100-103 | without a rate for the year before the evaluation year, every term and so the total is 0 |
| `Refund.DiscountedTotalNonNegative` | app.py:98-103 | with rates above -1, the total for a non-negative amount is non-negative |
| `Refund.DiscountedTotalAtLeast` | app.py:98-103 | with a full series of non-negative rates, the total is at least `years × amount` |
| `Refund.RefundNonNegative` | app.py:47-105 | with rates above -1, every result's refund is non-negative and its years lie in 0..4 |

## Left out

- The HTTP endpoint `get_refund` (app.py:133-158) is left out: request parsing, status codes 400 and 500, exception handling. It is I/O glue.
- The PIN sanitising regex (app.py:144) and the outbound request to the comparables service (app.py:147-150) are left out: the comparables data is a parameter.
- Loading `interest_rates.csv` at import time (app.py:9-15) is file I/O. The rate table is a `map<int, real>` parameter.
- `datetime.now()` (app.py:95) is replaced by an evaluation-date parameter.
- `datetime.strptime` (app.py:94) is a library call. The sale date arrives already parsed, as an optional `Date`. A sale-date string that does not parse raises in the source; that path is not modelled.
- `round(total_refund, 2)` (app.py:105) and IEEE-754 float arithmetic are left out: amounts are exact reals and the total is not rounded.
- The counter `n` in `calculate_present_value` is kept but never read, as in the source.
- Python's ordering of dictionary items decides only the order of summation, which does not matter for exact reals.
- test_app.py holds HTTP-level tests with a mocked network call and no logic of its own.
