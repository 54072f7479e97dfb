/**
 * The percentage `run` emits for one marker: `min(int(elapsed / duration * 100), 100)`.
 * The quotient is never negative here, so Python's truncating `int` is the floor.
 */
module Percentage {
  /** `elapsed / duration * 100`, before truncation. */
  function Ratio(elapsed: nat, duration: real): real
    requires duration > 0.0
  {
    elapsed as real / duration * 100.0
  }

  function Percent(elapsed: nat, duration: real): (p: int)
    requires duration > 0.0
    ensures 0 <= p <= 100
    ensures p == 100 <==> elapsed as real >= duration
  {
    RatioFacts(elapsed, duration);
    var x := Ratio(elapsed, duration).Floor;
    if x < 100 then x else 100
  }

  /** Below 100, the percentage is the ratio truncated to a whole number. */
  lemma PercentTruncates(elapsed: nat, duration: real)
    requires duration > 0.0
    ensures var p := Percent(elapsed, duration);
      p < 100 ==> p as real <= Ratio(elapsed, duration) < (p + 1) as real
  {
  }

  /** The ratio is never negative, and reaches 100 exactly when the elapsed time reaches the duration. */
  lemma RatioFacts(elapsed: nat, duration: real)
    requires duration > 0.0
    ensures Ratio(elapsed, duration) >= 0.0
    ensures Ratio(elapsed, duration) >= 100.0 <==> elapsed as real >= duration
  {
    DivAtLeastOne(elapsed as real, duration);
  }

  /** More elapsed time never gives a smaller ratio. */
  lemma RatioMonotone(e1: nat, e2: nat, duration: real)
    requires duration > 0.0 && e1 <= e2
    ensures Ratio(e1, duration) <= Ratio(e2, duration)
  {
    DivMonotone(e1 as real, e2 as real, duration);
  }

  lemma DivAtLeastOne(e: real, d: real)
    requires d > 0.0 && e >= 0.0
    ensures e / d >= 0.0
    ensures e / d >= 1.0 <==> e >= d
  {
  }

  lemma DivMonotone(e1: real, e2: real, d: real)
    requires d > 0.0 && e1 <= e2
    ensures e1 / d <= e2 / d
  {
  }

  /** A later marker never yields a smaller percentage. */
  lemma PercentMonotone(e1: nat, e2: nat, duration: real)
    requires duration > 0.0 && e1 <= e2
    ensures Percent(e1, duration) <= Percent(e2, duration)
  {
    RatioMonotone(e1, e2, duration);
    RatioFacts(e1, duration);
    RatioFacts(e2, duration);
  }
}
