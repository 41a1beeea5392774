/**
 * Worked cases of the calculator for inputs its unit tests use: the exact
 * masses of each produced mix, checked against the tests' tolerance where
 * the tests compare approximate values, and the inputs that are rejected.
 */
module Scenarios {
  import opened Options
  import opened PaintCalculator

  /** The tolerance the tests allow between expected and computed masses. */
  const Delta: real := 0.001

  /** `actual` is within `Delta` of `expected`. */
  predicate Near(actual: real, expected: real)
  {
    -Delta <= actual - expected <= Delta
  }

  /** Ratio 2 : 1, no dilution, 1 kg: two thirds main component, one third hardener. */
  lemma TwoToOneUndiluted()
    ensures Calculate(Some(2.0), Some(1.0), Some(0.0), Some(1.0))
         == Some(Result(2.0 / 3.0, 1.0 / 3.0, 0.0))
    ensures Near(2.0 / 3.0, 0.667) && Near(1.0 / 3.0, 0.333)
  {
  }

  /** Ratio 3 : 1, 20 % dilution, 5 kg. */
  lemma ThreeToOneTwentyPercent()
    ensures Calculate(Some(3.0), Some(1.0), Some(20.0), Some(5.0))
         == Some(Result(25.0 / 8.0, 25.0 / 24.0, 5.0 / 6.0))
    ensures Near(25.0 / 8.0, 3.125) && Near(25.0 / 24.0, 1.042) && Near(5.0 / 6.0, 0.833)
  {
  }

  /** Ratio 2 : 1, 100 % dilution, 2 kg: half of the mix is diluent. */
  lemma TwoToOneFullDilution()
    ensures Calculate(Some(2.0), Some(1.0), Some(100.0), Some(2.0))
         == Some(Result(2.0 / 3.0, 1.0 / 3.0, 1.0))
    ensures Near(2.0 / 3.0, 0.667) && Near(1.0 / 3.0, 0.333)
  {
  }

  /** Ratio 2 : 1, 10 % dilution, 100 kg. */
  lemma LargeBatch()
    ensures Calculate(Some(2.0), Some(1.0), Some(10.0), Some(100.0))
         == Some(Result(2000.0 / 33.0, 1000.0 / 33.0, 100.0 / 11.0))
    ensures Near(2000.0 / 33.0, 60.606) && Near(1000.0 / 33.0, 30.303) && Near(100.0 / 11.0, 9.091)
  {
  }

  /** An absent dilution rate is treated as 0 %. */
  lemma AbsentRate()
    ensures Calculate(Some(2.0), Some(1.0), None, Some(1.0))
         == Some(Result(2.0 / 3.0, 1.0 / 3.0, 0.0))
    ensures Near(2.0 / 3.0, 0.667) && Near(1.0 / 3.0, 0.333)
  {
  }

  /** A total of 0 kg gives three zero masses. */
  lemma ZeroBatch()
    ensures Calculate(Some(2.0), Some(1.0), Some(10.0), Some(0.0))
         == Some(Result(0.0, 0.0, 0.0))
  {
  }

  /** Missing inputs, a zero ratio sum and a negative total are rejected. */
  lemma Rejected()
    ensures Calculate(None, Some(1.0), Some(10.0), Some(1.0)) == None
    ensures Calculate(Some(2.0), None, Some(10.0), Some(1.0)) == None
    ensures Calculate(Some(2.0), Some(1.0), Some(10.0), None) == None
    ensures Calculate(Some(0.0), Some(0.0), Some(10.0), Some(1.0)) == None
    ensures Calculate(Some(2.0), Some(1.0), Some(10.0), Some(-1.0)) == None
  {
  }
}
