/**
 * What the calculation promises about a mix it produces: how the base mass
 * is split, what the diluent amounts to, that these facts determine the mix
 * uniquely, and how the result reacts to defaulted, zero, scaled or swapped
 * inputs.
 */
module MixProperties {
  import opened Options
  import opened PaintCalculator

  /** The factor the calculation divides the total by for the rate `d`. */
  function Factor(d: Option<real>): real
  {
    DilutionFactor(EffectiveRate(d))
  }

  /**
   * The mixes that fit the inputs, stated without the calculation: they
   * weigh the total, main component and hardener stand in the ratio
   * `m : h`, and the base mass enlarged by the dilution factor is the total.
   */
  ghost predicate Fits(m: real, h: real, d: Option<real>, t: real, x: Result)
  {
    && x.Total() == t
    && x.mainAmount * h == x.hardenerAmount * m
    && x.Base() * Factor(d) == t
  }

  // Arithmetic steps over plain reals, kept apart so that each is proved in
  // a small context.

  /** Dividing by a non-zero factor and multiplying back is the identity. */
  lemma DivMulCancel(a: real, f: real)
    requires f != 0.0
    ensures (a / f) * f == a
  {
  }

  /** A product with a non-zero factor determines the other factor. */
  lemma SolveFactor(a: real, f: real, c: real)
    requires f != 0.0 && a * f == c
    ensures a == c / f
  {
  }

  /** Two shares of `pre` with weights `m` and `h` add up to `pre`. */
  lemma SharesAddUp(pre: real, m: real, h: real)
    requires m + h != 0.0
    ensures pre * m / (m + h) + pre * h / (m + h) == pre
  {
    var s := m + h;
    assert pre * m / s + pre * h / s == (pre * m + pre * h) / s;
    assert pre * m + pre * h == pre * s;
    MulDivCancelLeft(pre, s);
  }

  /** Multiplying by a non-zero factor and dividing back is the identity. */
  lemma MulDivCancelLeft(a: real, f: real)
    requires f != 0.0
    ensures (a * f) / f == a
  {
  }

  /** Two shares of `pre` with weights `m` and `h` stand in the ratio `m : h`. */
  lemma SharesProportional(pre: real, m: real, h: real, s: real)
    requires s != 0.0
    ensures (pre * m / s) * h == (pre * h / s) * m
  {
    assert (pre * m / s) * h == (pre * m * h) / s;
    assert (pre * h / s) * m == (pre * h * m) / s;
  }

  /** A quotient by a positive divisor has the sign of the dividend. */
  lemma QuotientSign(a: real, s: real)
    requires s > 0.0
    ensures a >= 0.0 ==> a / s >= 0.0
    ensures a < 0.0 ==> a / s < 0.0
  {
  }

  /** A product of two non-negative factors is non-negative. */
  lemma ProductNonNegative(a: real, b: real)
    requires a >= 0.0 && b >= 0.0
    ensures a * b >= 0.0
  {
  }

  /** Scaling the dividend `t` by `k` scales a share of `t / f` by `k`. */
  lemma ScaleShare(k: real, t: real, f: real, w: real, s: real)
    requires f != 0.0 && s != 0.0
    ensures ((k * t) / f) * w / s == k * ((t / f) * w / s)
  {
    assert (k * t) / f == k * (t / f);
    assert (k * (t / f)) * w == k * ((t / f) * w);
    assert (k * ((t / f) * w)) / s == k * (((t / f) * w) / s);
  }

  /**
   * The masses of a produced mix, spelled out: the inputs passed validation,
   * main component and hardener are shares of the pre-dilution mass
   * `t / Factor(d)`, and the diluent is the rest of the total.
   */
  lemma Unfold(m: real, h: real, d: Option<real>, t: real, r: Result)
    requires d != Some(-100.0)
    requires Calculate(Some(m), Some(h), d, Some(t)) == Some(r)
    ensures m + h > 0.0 && t >= 0.0 && Factor(d) != 0.0
    ensures r.mainAmount == (t / Factor(d)) * m / (m + h)
    ensures r.hardenerAmount == (t / Factor(d)) * h / (m + h)
    ensures r.dilutionAmount == t - r.mainAmount - r.hardenerAmount
  {
  }

  /** On accepted inputs the calculation produces a mix. */
  lemma Produces(m: real, h: real, d: Option<real>, t: real)
    requires m + h > 0.0 && t >= 0.0 && d != Some(-100.0)
    ensures Calculate(Some(m), Some(h), d, Some(t)).Some?
  {
  }

  /**
   * The base mass of a produced mix is the total divided by the dilution
   * factor: main component and hardener together are exactly the mass before
   * diluting.
   */
  lemma PreDilutionSplit(m: real, h: real, d: Option<real>, t: real, r: Result)
    requires d != Some(-100.0)
    requires Calculate(Some(m), Some(h), d, Some(t)) == Some(r)
    ensures r.Base() == t / Factor(d)
    ensures r.Base() * Factor(d) == t
  {
    Unfold(m, h, d, t, r);
    SharesAddUp(t / Factor(d), m, h);
    DivMulCancel(t, Factor(d));
  }

  /** Main component and hardener of a produced mix stand in the ratio `m : h`. */
  lemma Proportional(m: real, h: real, d: Option<real>, t: real, r: Result)
    requires d != Some(-100.0)
    requires Calculate(Some(m), Some(h), d, Some(t)) == Some(r)
    ensures r.mainAmount * h == r.hardenerAmount * m
  {
    Unfold(m, h, d, t, r);
    SharesProportional(t / Factor(d), m, h, m + h);
  }

  /**
   * The diluent is `rate` percent of the base mass, although the calculation
   * obtains it by subtraction from the total.
   */
  lemma DiluentIsRateOfBase(m: real, h: real, d: Option<real>, t: real, r: Result)
    requires d != Some(-100.0)
    requires Calculate(Some(m), Some(h), d, Some(t)) == Some(r)
    ensures r.dilutionAmount == r.Base() * EffectiveRate(d) / 100.0
  {
    PreDilutionSplit(m, h, d, t, r);
    var b := r.Base();
    var rate := EffectiveRate(d);
    assert b * (1.0 + rate / 100.0) == t;
    assert b * (1.0 + rate / 100.0) == b + b * rate / 100.0;
  }

  /** A produced mix fits the inputs. */
  lemma ResultFits(m: real, h: real, d: Option<real>, t: real, r: Result)
    requires d != Some(-100.0)
    requires Calculate(Some(m), Some(h), d, Some(t)) == Some(r)
    ensures Fits(m, h, d, t, r)
  {
    PreDilutionSplit(m, h, d, t, r);
    Proportional(m, h, d, t, r);
  }

  /** On accepted inputs, a mix that fits them is the one the calculation produces. */
  lemma FitIsUnique(m: real, h: real, d: Option<real>, t: real, x: Result)
    requires m + h > 0.0 && t >= 0.0 && d != Some(-100.0)
    requires Fits(m, h, d, t, x)
    ensures Calculate(Some(m), Some(h), d, Some(t)) == Some(x)
  {
    Produces(m, h, d, t);
    var r := Calculate(Some(m), Some(h), d, Some(t)).value;
    Unfold(m, h, d, t, r);
    var s := m + h;
    var f := Factor(d);
    var pre := t / f;
    var b := x.Base();
    assert b == pre by {
      SolveFactor(b, f, t);
    }
    assert x.mainAmount == pre * m / s by {
      assert x.mainAmount * s == x.mainAmount * m + x.mainAmount * h;
      assert x.mainAmount * m + x.hardenerAmount * m == b * m;
      SolveFactor(x.mainAmount, s, pre * m);
    }
    assert x.hardenerAmount == pre * h / s by {
      assert x.hardenerAmount * s == x.hardenerAmount * m + x.hardenerAmount * h;
      assert x.mainAmount * h + x.hardenerAmount * h == b * h;
      SolveFactor(x.hardenerAmount, s, pre * h);
    }
    assert x.dilutionAmount == t - x.mainAmount - x.hardenerAmount;
    assert r == x;
  }

  /**
   * On accepted inputs the calculation produces exactly the mix that fits
   * them: the sum, ratio and pre-dilution facts together determine the result.
   */
  lemma Characterized(m: real, h: real, d: Option<real>, t: real, x: Result)
    requires m + h > 0.0 && t >= 0.0 && d != Some(-100.0)
    ensures Calculate(Some(m), Some(h), d, Some(t)) == Some(x) <==> Fits(m, h, d, t, x)
  {
    if Calculate(Some(m), Some(h), d, Some(t)) == Some(x) {
      ResultFits(m, h, d, t, x);
    }
    if Fits(m, h, d, t, x) {
      FitIsUnique(m, h, d, t, x);
    }
  }

  /** An absent dilution rate gives the same result as a rate of 0 %. */
  lemma AbsentRateIsZeroRate(m: Option<real>, h: Option<real>, t: Option<real>)
    ensures Calculate(m, h, None, t) == Calculate(m, h, Some(0.0), t)
  {
    assert Factor(None) == Factor(Some(0.0)) == 1.0;
    if Accepts(m, h, t) {
      var r := Calculate(m, h, None, t).value;
      ResultFits(m.value, h.value, None, t.value, r);
      FitIsUnique(m.value, h.value, Some(0.0), t.value, r);
    }
  }

  /**
   * Without dilution (rate absent or 0 %) the diluent is nothing and main
   * component and hardener make up the whole total.
   */
  lemma ZeroDilution(m: real, h: real, d: Option<real>, t: real, r: Result)
    requires d == None || d == Some(0.0)
    requires Calculate(Some(m), Some(h), d, Some(t)) == Some(r)
    ensures r.dilutionAmount == 0.0
    ensures r.Base() == t
  {
    DiluentIsRateOfBase(m, h, d, t, r);
  }

  /** A total of 0 is accepted and yields three zero masses. */
  lemma ZeroTotal(m: real, h: real, d: Option<real>)
    requires m + h > 0.0 && d != Some(-100.0)
    ensures Calculate(Some(m), Some(h), d, Some(0.0)) == Some(Result(0.0, 0.0, 0.0))
  {
    var zero := Result(0.0, 0.0, 0.0);
    assert zero.Base() * Factor(d) == 0.0;
    assert zero.mainAmount * h == zero.hardenerAmount * m;
    FitIsUnique(m, h, d, 0.0, zero);
  }

  /** With non-negative ratios, rate and total, all three masses are non-negative. */
  lemma NonNegative(m: real, h: real, d: Option<real>, t: real, r: Result)
    requires m >= 0.0 && h >= 0.0 && EffectiveRate(d) >= 0.0
    requires Calculate(Some(m), Some(h), d, Some(t)) == Some(r)
    ensures r.mainAmount >= 0.0
    ensures r.hardenerAmount >= 0.0
    ensures r.dilutionAmount >= 0.0
  {
    Unfold(m, h, d, t, r);
    var pre := t / Factor(d);
    QuotientSign(t, Factor(d));
    ProductNonNegative(pre, m);
    ProductNonNegative(pre, h);
    QuotientSign(pre * m, m + h);
    QuotientSign(pre * h, m + h);
    DiluentIsRateOfBase(m, h, d, t, r);
    ProductNonNegative(r.Base(), EffectiveRate(d));
  }

  /**
   * The calculator (`Calculate`) does not reject a negative ratio whose sum with the other is
   * positive: the mix then asks for a negative mass of that component.
   */
  lemma NegativeRatioAccepted(m: real, h: real, d: Option<real>, t: real)
    requires m < 0.0 && m + h > 0.0 && t > 0.0 && EffectiveRate(d) > -100.0
    ensures Calculate(Some(m), Some(h), d, Some(t)).Some?
    ensures Calculate(Some(m), Some(h), d, Some(t)).value.mainAmount < 0.0
  {
    Produces(m, h, d, t);
    Unfold(m, h, d, t, Calculate(Some(m), Some(h), d, Some(t)).value);
    var pre := t / Factor(d);
    QuotientSign(t, Factor(d));
    assert pre > 0.0;
    assert pre * m < 0.0;
    QuotientSign(pre * m, m + h);
  }

  /**
   * The calculator (`Calculate`) does not reject a rate below -100 %: the dilution factor is
   * then negative, and so is the base mass of a positive total.
   */
  lemma RateBelowMinusHundredAccepted(m: real, h: real, d: Option<real>, t: real)
    requires m + h > 0.0 && t > 0.0 && EffectiveRate(d) < -100.0
    ensures Calculate(Some(m), Some(h), d, Some(t)).Some?
    ensures Calculate(Some(m), Some(h), d, Some(t)).value.Base() < 0.0
    ensures Calculate(Some(m), Some(h), d, Some(t)).value.dilutionAmount > t
  {
    var r := Calculate(Some(m), Some(h), d, Some(t)).value;
    PreDilutionSplit(m, h, d, t, r);
    assert Factor(d) < 0.0;
    assert t / Factor(d) < 0.0;
  }

  /** Only the proportion of the two ratios matters: scaling both by `k > 0` changes nothing. */
  lemma RatioScaleInvariant(m: real, h: real, d: Option<real>, t: real, k: real)
    requires k > 0.0 && d != Some(-100.0)
    ensures Calculate(Some(k * m), Some(k * h), d, Some(t)) == Calculate(Some(m), Some(h), d, Some(t))
  {
    assert k * m + k * h == k * (m + h);
    if m + h <= 0.0 {
      assert k * (m + h) <= 0.0;
    } else if t >= 0.0 {
      assert k * (m + h) > 0.0;
      var r := Calculate(Some(m), Some(h), d, Some(t)).value;
      ResultFits(m, h, d, t, r);
      assert r.mainAmount * (k * h) == r.hardenerAmount * (k * m) by {
        assert r.mainAmount * (k * h) == k * (r.mainAmount * h);
        assert r.hardenerAmount * (k * m) == k * (r.hardenerAmount * m);
      }
      FitIsUnique(k * m, k * h, d, t, r);
    }
  }

  /** The masses grow linearly with the total: a total `k` times as large gives `k` times each mass. */
  lemma TotalScalesLinearly(m: real, h: real, d: Option<real>, t: real, k: real, r: Result)
    requires k >= 0.0 && d != Some(-100.0)
    requires Calculate(Some(m), Some(h), d, Some(t)) == Some(r)
    ensures Calculate(Some(m), Some(h), d, Some(k * t))
         == Some(Result(k * r.mainAmount, k * r.hardenerAmount, k * r.dilutionAmount))
  {
    Unfold(m, h, d, t, r);
    ProductNonNegative(k, t);
    Produces(m, h, d, k * t);
    var x := Calculate(Some(m), Some(h), d, Some(k * t)).value;
    Unfold(m, h, d, k * t, x);
    ScaleShare(k, t, Factor(d), m, m + h);
    ScaleShare(k, t, Factor(d), h, m + h);
    assert x.mainAmount == k * r.mainAmount;
    assert x.hardenerAmount == k * r.hardenerAmount;
    assert x.dilutionAmount == k * r.dilutionAmount;
  }

  /** Exchanging the two ratios exchanges the main-component and hardener masses. */
  lemma SwapComponents(m: real, h: real, d: Option<real>, t: real, r: Result)
    requires d != Some(-100.0)
    requires Calculate(Some(m), Some(h), d, Some(t)) == Some(r)
    ensures Calculate(Some(h), Some(m), d, Some(t))
         == Some(Result(r.hardenerAmount, r.mainAmount, r.dilutionAmount))
  {
    ResultFits(m, h, d, t, r);
    FitIsUnique(h, m, d, t, Result(r.hardenerAmount, r.mainAmount, r.dilutionAmount));
  }
}
