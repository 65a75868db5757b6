/**
 * Degree-day accumulation over a sequence of daily mean temperatures (degrees F).
 * Every day contributes its distance from a threshold on the counted side, clamped
 * at zero; the season's total is the rounded sum of those contributions.
 */
module DegreeDays {
  import opened Rounding

  const FreezingThreshold: real := 32.0
  const HeatingThreshold: real := 65.0
  const BelowZeroThreshold: real := 0.0
  const ThawingThreshold: real := 32.0

  /** One day's degree days: the distance past the threshold on the counted side, never negative. */
  function Contribution(t: real, threshold: real, countBelow: bool): (d: real)
    ensures d >= 0.0
    ensures countBelow ==> d >= threshold - t && (d == 0.0 || d == threshold - t)
    ensures !countBelow ==> d >= t - threshold && (d == 0.0 || d == t - threshold)
  {
    var delta := if countBelow then threshold - t else t - threshold;
    if delta < 0.0 then 0.0 else delta
  }

  /** The unrounded accumulation over the days of `temps`, in order. */
  function TotalDelta(temps: seq<real>, threshold: real, countBelow: bool): (total: real)
    ensures total >= 0.0
  {
    if temps == [] then 0.0
    else TotalDelta(temps[..|temps| - 1], threshold, countBelow) + Contribution(temps[|temps| - 1], threshold, countBelow)
  }

  /** The degree-day count reported for a season: the accumulation rounded half to even. */
  function Accumulate(temps: seq<real>, threshold: real, countBelow: bool): (dd: int)
    ensures dd >= 0
  {
    RoundHalfEven(TotalDelta(temps, threshold, countBelow))
  }

  /** A season without days accumulates no degree days, whatever the threshold and direction. */
  lemma NoDaysNoDegreeDays(threshold: real, countBelow: bool)
    ensures Accumulate([], threshold, countBelow) == 0
  {
    RoundHalfEvenUnique(0.0, 0);
  }

  /** Plain sum of the daily temperatures, used to relate the two counting directions. */
  function Sum(temps: seq<real>): real
  {
    if temps == [] then 0.0 else Sum(temps[..|temps| - 1]) + temps[|temps| - 1]
  }

  /** The accumulation loop: clamp each day's signed delta at zero, add it, round the total. */
  method SummarizeYearDd(temps: seq<real>, threshold: real, countBelow: bool) returns (dd: int)
    ensures dd == Accumulate(temps, threshold, countBelow)
    ensures dd >= 0
  {
    var ddCount: real := 0.0;
    for i := 0 to |temps|
      invariant ddCount == TotalDelta(temps[..i], threshold, countBelow)
    {
      var degreeDelta: real;
      if countBelow {
        degreeDelta := threshold - temps[i];
      } else {
        degreeDelta := temps[i] - threshold;
      }
      if degreeDelta < 0.0 {
        degreeDelta := 0.0;
      }
      ddCount := ddCount + degreeDelta;
      assert temps[..i + 1][..i] == temps[..i];
    }
    assert temps[..|temps|] == temps;
    dd := RoundHalfEven(ddCount);
  }

  method ComputeCumulativeFreezingIndex(temps: seq<real>) returns (dd: int)
    ensures dd == Accumulate(temps, FreezingThreshold, true)
  {
    dd := SummarizeYearDd(temps, FreezingThreshold, true);
  }

  method ComputeCumulativeHeatingDegreeDays(temps: seq<real>) returns (dd: int)
    ensures dd == Accumulate(temps, HeatingThreshold, true)
  {
    dd := SummarizeYearDd(temps, HeatingThreshold, true);
  }

  method ComputeCumulativeDegreeDaysBelow0F(temps: seq<real>) returns (dd: int)
    ensures dd == Accumulate(temps, BelowZeroThreshold, true)
  {
    dd := SummarizeYearDd(temps, BelowZeroThreshold, true);
  }

  method ComputeCumulativeThawingIndex(temps: seq<real>) returns (dd: int)
    ensures dd == Accumulate(temps, ThawingThreshold, false)
  {
    dd := SummarizeYearDd(temps, ThawingThreshold, false);
  }

  /** Accumulation is additive over consecutive stretches of days. */
  lemma {:induction false} TotalDeltaAppend(a: seq<real>, b: seq<real>, threshold: real, countBelow: bool)
    ensures TotalDelta(a + b, threshold, countBelow) == TotalDelta(a, threshold, countBelow) + TotalDelta(b, threshold, countBelow)
  {
    if b != [] {
      var last := b[|b| - 1];
      assert (a + b)[..|a + b| - 1] == a + b[..|b| - 1];
      TotalDeltaAppend(a, b[..|b| - 1], threshold, countBelow);
      assert (a + b)[|a + b| - 1] == last;
    } else {
      assert a + b == a;
    }
  }

  /** Days sitting exactly at the threshold contribute nothing, so such a season (or an empty one) counts zero. */
  lemma {:induction false} AtThresholdCountsZero(temps: seq<real>, threshold: real, countBelow: bool)
    requires forall i :: 0 <= i < |temps| ==> temps[i] == threshold
    ensures TotalDelta(temps, threshold, countBelow) == 0.0
    ensures Accumulate(temps, threshold, countBelow) == 0
  {
    if temps != [] {
      AtThresholdCountsZero(temps[..|temps| - 1], threshold, countBelow);
    }
  }

  /** Counting below, a higher threshold never gives a smaller unrounded total. */
  lemma {:induction false} BelowTotalMonotoneInThreshold(temps: seq<real>, lo: real, hi: real)
    requires lo <= hi
    ensures TotalDelta(temps, lo, true) <= TotalDelta(temps, hi, true)
  {
    if temps != [] {
      BelowTotalMonotoneInThreshold(temps[..|temps| - 1], lo, hi);
    }
  }

  /** Heating degree days dominate the freezing index, which dominates the below-0F count, rounded or not. */
  lemma CountBelowIndicesOrdered(temps: seq<real>)
    ensures TotalDelta(temps, HeatingThreshold, true) >= TotalDelta(temps, FreezingThreshold, true) >= TotalDelta(temps, BelowZeroThreshold, true)
    ensures Accumulate(temps, HeatingThreshold, true) >= Accumulate(temps, FreezingThreshold, true) >= Accumulate(temps, BelowZeroThreshold, true)
  {
    BelowTotalMonotoneInThreshold(temps, FreezingThreshold, HeatingThreshold);
    BelowTotalMonotoneInThreshold(temps, BelowZeroThreshold, FreezingThreshold);
    RoundHalfEvenMonotone(TotalDelta(temps, FreezingThreshold, true), TotalDelta(temps, HeatingThreshold, true));
    RoundHalfEvenMonotone(TotalDelta(temps, BelowZeroThreshold, true), TotalDelta(temps, FreezingThreshold, true));
  }

  /**
   * The two directions partition each day's distance from the threshold: the count-below
   * total minus the count-above total is the season's signed distance below the threshold.
   */
  lemma {:induction false} BelowMinusAbove(temps: seq<real>, threshold: real)
    ensures TotalDelta(temps, threshold, true) - TotalDelta(temps, threshold, false) == |temps| as real * threshold - Sum(temps)
  {
    if temps != [] {
      BelowMinusAbove(temps[..|temps| - 1], threshold);
    }
  }

  /** Three days at 20F, counted below 32F: 12 + 12 + 12 = 36 degree days. */
  lemma ThreeColdDaysExample()
    ensures Accumulate([20.0, 20.0, 20.0], FreezingThreshold, true) == 36
  {
    var temps := [20.0, 20.0, 20.0];
    assert temps[..2] == [20.0, 20.0];
    assert temps[..2][..1] == [20.0];
    assert [20.0][..0] == [];
    assert TotalDelta(temps, FreezingThreshold, true) == 36.0;
    RoundHalfEvenUnique(36.0, 36);
  }
}
