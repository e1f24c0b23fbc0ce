/** `calculate_house_affordability_ratio`: sale price over household income,
    rounded to one decimal, for every row where both are present. */
module Affordability {
  import opened Common
  import opened Tables

  /** `round(x, 1)` on exact numbers: the nearest tenth, an exact tie going
      to the even tenth (round-half-even). Python applies this rule to the
      binary float, whose value is rarely an exact tie; that difference is
      not modelled. */
  function RoundTenth(x: real): (r: real)
    ensures (r * 10.0).Floor as real == r * 10.0
    ensures -0.05 <= r - x <= 0.05
  {
    var y := x * 10.0;
    var f := y.Floor;
    var frac := y - f as real;
    var n := if frac < 0.5 then f else if frac > 0.5 then f + 1 else if f % 2 == 0 then f else f + 1;
    n as real / 10.0
  }

  /** Round-half-even at an exact tie of reals: 0.25 goes down to 0.2, 0.35
      up to 0.4. */
  lemma RoundTenthTies()
    ensures RoundTenth(0.25) == 0.2 && RoundTenth(0.35) == 0.4 && RoundTenth(4.0) == 4.0
  {
    assert (0.25 * 10.0).Floor == 2;
    assert (0.35 * 10.0).Floor == 3;
    assert (4.0 * 10.0).Floor == 40;
  }

  /** The lambda for one row. A missing operand gives NA. With both present
      the division runs on the row's Python numbers: text raises TypeError
      and a zero income ZeroDivisionError. */
  function AffordabilityRatio(price: Value, income: Value): (r: Result<Value>)
    ensures r == Ok(NA) <==> price.NA? || income.NA?
    ensures r.Ok? && !r.value.NA? ==>
              AsNumber(price).Some? && AsNumber(income).Some? && AsNumber(income).value != 0.0 &&
              r.value == Dec(RoundTenth(AsNumber(price).value / AsNumber(income).value))
    ensures r.Err? <==> !price.NA? && !income.NA? && (AsNumber(price).None? || AsNumber(income).None? || AsNumber(income).value == 0.0)
  {
    if price.NA? || income.NA? then Ok(NA)
    else match (AsNumber(price), AsNumber(income))
      case (Some(p), Some(i)) => if i == 0.0 then Err(ZeroDivisionError) else Ok(Dec(RoundTenth(p / i)))
      case _ => Err(TypeError)
  }

  function RatioOutcomes(prices: seq<Value>, incomes: seq<Value>): (outs: seq<Result<Value>>)
    requires |prices| == |incomes|
    ensures |outs| == |prices| && forall i :: 0 <= i < |prices| ==> outs[i] == AffordabilityRatio(prices[i], incomes[i])
  {
    seq(|prices|, i requires 0 <= i < |prices| => AffordabilityRatio(prices[i], incomes[i]))
  }

  /** `df.apply(lambda row: ..., axis=1)`: the column of row ratios, or the
      exception of the first row that raised. */
  function RatioColumn(prices: seq<Value>, incomes: seq<Value>): (r: Result<seq<Value>>)
    requires |prices| == |incomes|
    ensures r.Ok? <==> AllOk(RatioOutcomes(prices, incomes))
    ensures r.Ok? ==> |r.value| == |prices|
    ensures r.Err? ==> r.error == FirstError(RatioOutcomes(prices, incomes))
  {
    var outs := RatioOutcomes(prices, incomes);
    if AllOk(outs) then Ok(OkValues(outs)) else Err(FirstError(outs))
  }

  /** The ratio is present exactly when both the price and the income are. */
  lemma RatioPresence(prices: seq<Value>, incomes: seq<Value>, i: nat)
    requires |prices| == |incomes| && i < |prices| && RatioColumn(prices, incomes).Ok?
    ensures !RatioColumn(prices, incomes).value[i].NA? <==> !prices[i].NA? && !incomes[i].NA?
  {
    var outs := RatioOutcomes(prices, incomes);
    assert outs[i].Ok?;
  }

  /** A present ratio is within a twentieth of the exact quotient. */
  lemma RatioCloseToQuotient(price: int, income: int)
    requires income != 0
    ensures AffordabilityRatio(Int(price), Int(income)).Ok?
    ensures var q := price as real / income as real;
            -0.05 <= AffordabilityRatio(Int(price), Int(income)).value.r - q <= 0.05
  {
  }

  /** A zero income aborts the whole column, whatever the other rows hold. */
  lemma ZeroIncomeAborts(prices: seq<Value>, incomes: seq<Value>, i: nat)
    requires |prices| == |incomes| && i < |prices|
    requires prices[i].Int? && incomes[i] == Int(0)
    ensures RatioColumn(prices, incomes).Err?
  {
    assert RatioOutcomes(prices, incomes)[i].Err?;
  }
}
