/**
 * The paint-mixing calculation: from a main-component ratio, a hardener ratio,
 * a dilution rate in percent and a total mass, the masses of main component,
 * hardener and diluent to weigh out. All arithmetic is exact over `real`.
 */
module PaintCalculator {
  import opened Options

  /** The three masses of one mix. */
  datatype Result = Result(mainAmount: real, hardenerAmount: real, dilutionAmount: real)
  {
    /** Mass of main component plus hardener, before any diluent is added. */
    function Base(): real
    {
      mainAmount + hardenerAmount
    }

    /** Mass of the whole mix. */
    function Total(): real
    {
      mainAmount + hardenerAmount + dilutionAmount
    }
  }

  /** The dilution rate the calculation uses: an absent rate counts as 0 %. */
  function EffectiveRate(dilutionRate: Option<real>): (rate: real)
    ensures dilutionRate.None? ==> rate == 0.0
    ensures dilutionRate.Some? ==> rate == dilutionRate.value
  {
    dilutionRate.GetOr(0.0)
  }

  /** The factor by which diluting at `rate` percent enlarges the base mass. */
  function DilutionFactor(rate: real): real
  {
    1.0 + rate / 100.0
  }

  /**
   * The inputs the calculator accepts: both ratios and the total present,
   * a positive ratio sum and a total that is not negative. The dilution
   * rate is never a reason to reject.
   */
  predicate Accepts(mainRatio: Option<real>, hardenerRatio: Option<real>, totalAmount: Option<real>)
  {
    && mainRatio.Some?
    && hardenerRatio.Some?
    && totalAmount.Some?
    && mainRatio.value + hardenerRatio.value > 0.0
    && totalAmount.value >= 0.0
  }

  /**
   * The inputs on which the calculation's one division by an input-dependent
   * value is defined: either validation rejects them before the division, or
   * the rate is not -100 % (the rate at which the dilution factor is zero).
   */
  predicate DivisionDefined(mainRatio: Option<real>, hardenerRatio: Option<real>,
                            dilutionRate: Option<real>, totalAmount: Option<real>)
  {
    Accepts(mainRatio, hardenerRatio, totalAmount) ==> dilutionRate != Some(-100.0)
  }

  /**
   * The calculation itself. Checks, in order, that the required inputs are
   * present, that the ratio sum is positive and that the total is not
   * negative; then splits the pre-dilution mass between main component and
   * hardener in proportion to their ratios and gives the rest of the total
   * to the diluent.
   */
  function Calculate(mainRatio: Option<real>, hardenerRatio: Option<real>,
                     dilutionRate: Option<real>, totalAmount: Option<real>): (r: Option<Result>)
    requires DivisionDefined(mainRatio, hardenerRatio, dilutionRate, totalAmount)
    // every rejection reason, each on its own
    ensures mainRatio.None? || hardenerRatio.None? || totalAmount.None? ==> r.None?
    ensures mainRatio.Some? && hardenerRatio.Some? && mainRatio.value + hardenerRatio.value <= 0.0 ==> r.None?
    ensures totalAmount.Some? && totalAmount.value < 0.0 ==> r.None?
    // and nothing else is rejected
    ensures r.Some? <==> Accepts(mainRatio, hardenerRatio, totalAmount)
    // a produced mix weighs exactly the requested total
    ensures r.Some? ==> r.value.Total() == totalAmount.value
  {
    if mainRatio.None? || hardenerRatio.None? || totalAmount.None? then
      None
    else
      var ratioSum := mainRatio.value + hardenerRatio.value;
      if ratioSum <= 0.0 then
        None
      else if totalAmount.value < 0.0 then
        None
      else
        var effectiveDilutionRate := EffectiveRate(dilutionRate);
        var preDilutionAmount := totalAmount.value / DilutionFactor(effectiveDilutionRate);
        var mainAmount := preDilutionAmount * mainRatio.value / ratioSum;
        var hardenerAmount := preDilutionAmount * hardenerRatio.value / ratioSum;
        var dilutionAmount := totalAmount.value - mainAmount - hardenerAmount;
        Some(Result(mainAmount, hardenerAmount, dilutionAmount))
  }
}
