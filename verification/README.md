# Paint calculator — a Dafny model

This project models the calculation core of a two-component paint-mixing
calculator. From a main-component ratio, a hardener ratio, a dilution rate in
percent and the total mass wanted, `PaintCalculator.calculate` returns the
masses of main component, hardener and diluent to weigh out, or `null` when
the inputs are invalid.

The model works over exact `real` arithmetic. Nullable numbers are
`Option<real>` and the nullable result is `Option<Result>`.

- `options.dfy` (`Options`): the `Option` type and its `GetOr` default, the
  counterpart of Kotlin's `?:`. The `PaintCalculator.EffectiveRate` row of
  the table covers its one use (PaintCalculator.kt:42).
- `paint_calculator.dfy` (`PaintCalculator`): the `Result` triple, the
  defaulting of the rate, the validation predicate `Accepts` and `Calculate`.
- `mix_properties.dfy` (`MixProperties`): lemmas about produced mixes. They
  cover the pre-dilution split, proportionality and the diluent as a
  percentage of the base mass. The predicate `Fits` states those facts
  without reference to the calculation, and `Characterized` shows that they
  pin the result down uniquely. Further lemmas cover defaulting, zero
  dilution, zero total, non-negativity, the accepted degenerate inputs, and
  scaling and swapping of inputs.
- `scenarios.dfy` (`Scenarios`): worked cases from the unit tests. Each
  scenario that produces a mix gives its exact masses; where the tests
  compare approximate values, it also checks them against the tests' 0.001
  tolerance. `Rejected` gives the invalid inputs that produce no mix.

For finite inputs, the model follows the code's validation exactly. A ratio may be negative
on its own as long as the ratio sum is positive, and any dilution rate is
accepted, including rates below -100 %. The lemmas `NegativeRatioAccepted`
and `RateBelowMinusHundredAccepted` record the signs of the masses such inputs produce.

Because arithmetic is exact, the tests' approximate checks become equalities.
For example, main + hardener + diluent equals the total exactly.

## Model

| member | source | states |
|---|---|---|
| PaintCalculator.Calculate | app/src/main/java/com/nebukin/android/paintcalc/PaintCalculator.kt:23-57 | A missing main ratio, hardener ratio or total is rejected, and so are a ratio sum of at most 0 and a negative total. A result is present exactly when the inputs pass those checks. Every produced mix weighs exactly the requested total. |
| PaintCalculator.EffectiveRate | app/src/main/java/com/nebukin/android/paintcalc/PaintCalculator.kt:42 | An absent dilution rate counts as 0 %; a present one is used as given. |
| MixProperties.PreDilutionSplit | app/src/main/java/com/nebukin/android/paintcalc/PaintCalculator.kt:45-51 | Main component plus hardener equals the total divided by `1 + rate/100`, the mass before diluting. |
| MixProperties.Proportional | app/src/main/java/com/nebukin/android/paintcalc/PaintCalculator.kt:48-51 | The main and hardener masses stand in the ratio `mainRatio : hardenerRatio`: `main * hardenerRatio == hardener * mainRatio`. |
| MixProperties.DiluentIsRateOfBase | app/src/main/java/com/nebukin/android/paintcalc/PaintCalculator.kt:45-54 | The diluent is found by subtracting from the total, yet it equals exactly `rate` percent of the main-plus-hardener mass. |
| MixProperties.ResultFits | app/src/main/java/com/nebukin/android/paintcalc/PaintCalculator.kt:45-56 | A produced mix meets the sum, ratio and pre-dilution facts. |
| MixProperties.FitIsUnique | app/src/main/java/com/nebukin/android/paintcalc/PaintCalculator.kt:45-56 | On accepted inputs, any triple meeting the sum, ratio and pre-dilution facts is the one the calculation returns. |
| MixProperties.Characterized | app/src/main/java/com/nebukin/android/paintcalc/PaintCalculator.kt:45-56 | On accepted inputs, the calculation returns a triple if and only if it meets the sum, ratio and pre-dilution facts. |
| MixProperties.AbsentRateIsZeroRate | app/src/main/java/com/nebukin/android/paintcalc/PaintCalculator.kt:42 | For any other inputs, an absent dilution rate gives the same result as a rate of 0. |
| MixProperties.ZeroDilution | app/src/main/java/com/nebukin/android/paintcalc/PaintCalculator.kt:42-54 | With the rate absent or 0 %, the diluent is 0 and main plus hardener equals the total. |
| MixProperties.ZeroTotal | app/src/main/java/com/nebukin/android/paintcalc/PaintCalculator.kt:38-54 | A total of exactly 0 is accepted and gives three zero masses. |
| MixProperties.NonNegative | app/src/main/java/com/nebukin/android/paintcalc/PaintCalculator.kt:45-54 | With non-negative ratios, rate and total, all three masses are non-negative. |
| MixProperties.NegativeRatioAccepted | app/src/main/java/com/nebukin/android/paintcalc/PaintCalculator.kt:33-48 | A negative main ratio with a positive ratio sum is not rejected. For a positive total and a rate above -100 %, the mix asks for a negative main mass. |
| MixProperties.RateBelowMinusHundredAccepted | app/src/main/java/com/nebukin/android/paintcalc/PaintCalculator.kt:42-54 | A rate below -100 % is not rejected. For a positive total, main plus hardener is then negative and the diluent exceeds the total. |
| MixProperties.RatioScaleInvariant | app/src/main/java/com/nebukin/android/paintcalc/PaintCalculator.kt:33-51 | Only the proportion of the ratios matters. Multiplying both by `k > 0` leaves the result, or its absence, unchanged. |
| MixProperties.TotalScalesLinearly | app/src/main/java/com/nebukin/android/paintcalc/PaintCalculator.kt:45-54 | Multiplying the total by `k >= 0` multiplies each of the three masses by `k`. |
| MixProperties.SwapComponents | app/src/main/java/com/nebukin/android/paintcalc/PaintCalculator.kt:48-54 | Exchanging the two ratios exchanges the main and hardener masses and keeps the diluent. |
| Scenarios.TwoToOneUndiluted | app/src/test/java/com/nebukin/android/paintcalc/PaintCalculatorTest.kt:21-39 | Ratio 2:1, no dilution, 1 kg gives exactly 2/3, 1/3 and 0. These are within 0.001 of 0.667, 0.333 and 0. |
| Scenarios.ThreeToOneTwentyPercent | app/src/test/java/com/nebukin/android/paintcalc/PaintCalculatorTest.kt:104-124 | Ratio 3:1, 20 %, 5 kg gives exactly 25/8, 25/24 and 5/6. These are within 0.001 of 3.125, 1.042 and 0.833. |
| Scenarios.TwoToOneFullDilution | app/src/test/java/com/nebukin/android/paintcalc/PaintCalculatorTest.kt:466-486 | Ratio 2:1, 100 %, 2 kg gives exactly 2/3, 1/3 and 1. The first two are within 0.001 of 0.667 and 0.333. |
| Scenarios.LargeBatch | app/src/test/java/com/nebukin/android/paintcalc/PaintCalculatorTest.kt:304-321 | Ratio 2:1, 10 %, 100 kg gives exactly 2000/33, 1000/33 and 100/11. These are within 0.001 of 60.606, 30.303 and 9.091. |
| Scenarios.AbsentRate | app/src/test/java/com/nebukin/android/paintcalc/PaintCalculatorTest.kt:336-349 | With no dilution rate, ratio 2:1 and 1 kg give 2/3, 1/3 and 0. The first two are within 0.001 of 0.667 and 0.333. |
| Scenarios.ZeroBatch | app/src/test/java/com/nebukin/android/paintcalc/PaintCalculatorTest.kt:351-364 | A total of 0 kg gives three zero masses. |
| Scenarios.Rejected | app/src/test/java/com/nebukin/android/paintcalc/PaintCalculatorTest.kt:370-428 | Each test's missing input, zero ratio sum or negative total gives no result. |

## Left out

- PaintCalculator.Calculate: requires that the rate is not exactly -100 % whenever the inputs pass validation (`DivisionDefined`). At that rate the divisor `1 + rate/100` at PaintCalculator.kt:45 is zero. The source does not guard it, and Kotlin's doubles then give an infinite or NaN result. Exact reals have no such values, so the model leaves out this one point. It does not add a rejection rule.
- IEEE-754 `Double` behaviour is not modelled; arithmetic is exact over `real`, which has no rounding, no infinities and no NaN. On finite inputs whose intermediate values stay finite, the source differs from the model by rounding only. Beyond that the two part ways:
  - Overflow to ±Infinity. With ratios 1.0E308 and 1.0E308, no rate and a total of 1.0, the ratio sum overflows to +Infinity and still passes the `ratioSum <= 0` check (PaintCalculator.kt:33-34). The source then returns main 0.0, hardener 0.0 and diluent 1.0, while the model returns 0.5, 0.5 and 0.0.
  - Overflow of `totalAmount / (1 + rate/100)` (PaintCalculator.kt:45) when the divisor is tiny.
  - NaN inputs. A NaN ratio or total passes both `ratioSum <= 0` and `totalAmount < 0` (PaintCalculator.kt:34, 38), so the source returns a result full of NaN. Real numbers have no NaN, so the model has no such input.
- `MainActivity` is not modelled. It holds the Android screen, inset padding, view lookup and text-change listeners.
- Text-to-number parsing (`toDoubleOrNull` in `MainActivity.calculate`) is not modelled: its grammar belongs to the Kotlin library. The model takes already-parsed `Option<real>` inputs.
- Display formatting is not modelled: two decimals in the device locale with a `kg` suffix, and the `-- kg` placeholder for an absent result. It is presentation only and depends on the locale.
