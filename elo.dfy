/** The Elo update rule of critic/src/elo/mod.rs.

    Ratings, scores and intermediate values are `real`. The expected score
    1 / (1 + 10^((opponent - self) / 400)) is computed in floating point by the source;
    here it is the parameter `expected`, where `expected(x, y)` is the expected score of
    a contestant rated `x` against one rated `y`. Everything else — the K-factor
    tiers, the score handling, the floor clamp and the rounding — is exact. */
module Elo {

  /** The K-factor tiers: strictly-greater-than thresholds, K falling as the rating rises. */
  function KFactor(rating: real): (k: int)
    ensures k in {5, 10, 15, 20, 25, 30, 35, 40, 60, 80}
  {
    if rating > 2400.0 then 5
    else if rating > 2200.0 then 10
    else if rating > 2000.0 then 15
    else if rating > 1800.0 then 20
    else if rating > 1600.0 then 25
    else if rating > 1400.0 then 30
    else if rating > 1200.0 then 35
    else if rating > 1000.0 then 40
    else if rating > 800.0 then 60
    else 80
  }

  lemma KFactorNonIncreasing(a: real, a': real)
    requires a <= a'
    ensures KFactor(a) >= KFactor(a')
  {
  }

  /** The thresholds are strict: a rating exactly on a tier boundary belongs to the tier below. */
  lemma KFactorThresholds(a: real)
    ensures KFactor(2400.0) == 10 && KFactor(2400.5) == 5
    ensures KFactor(1000.0) == 60 && KFactor(1000.5) == 40
    ensures a <= 800.0 ==> KFactor(a) == 80
  {
  }

  /** `f32::round`: the nearest whole number, halfway cases rounded away from zero. */
  function Round(x: real): (n: int)
    ensures -0.5 <= n as real - x <= 0.5
    ensures n as real - x == 0.5 ==> x > 0.0
    ensures n as real - x == -0.5 ==> x < 0.0
  {
    if x >= 0.0 then (x + 0.5).Floor else -((0.5 - x).Floor)
  }

  lemma RoundOdd(x: real)
    ensures Round(-x) == -Round(x)
  {
  }

  /** A whole number whose distance to `x` is below one half is `Round(x)`;
      so `Round` is determined by its contract. */
  lemma RoundUnique(x: real, n: int)
    requires -0.5 < n as real - x < 0.5
    ensures Round(x) == n
  {
  }

  /** Raw change of a contestant: K times (actual score minus expected score). */
  function RawChange(rating: real, score: real, expectedScore: real): real {
    KFactor(rating) as real * (score - expectedScore)
  }

  /** The floor rule: a contestant rated below 100 never loses rating. */
  function FloorClamp(rating: real, change: real): real {
    if rating < 100.0 && change < 0.0 then 0.0 else change
  }

  /** `calc_change(a, b, s)`: the rating changes of `a` and `b` after `a` scored `s`
      against `b`; `b`'s change is computed with the roles swapped and score `1 - s`. */
  function CalcChange(a: real, b: real, s: real, expected: (real, real) -> real): (change: (int, int))
    ensures -0.5 <= change.0 as real - FloorClamp(a, RawChange(a, s, expected(a, b))) <= 0.5
    ensures -0.5 <= change.1 as real - FloorClamp(b, RawChange(b, 1.0 - s, expected(b, a))) <= 0.5
    ensures a < 100.0 ==> change.0 >= 0
    ensures b < 100.0 ==> change.1 >= 0
  {
    var cA := RawChange(a, s, expected(a, b));
    var cB := RawChange(b, 1.0 - s, expected(b, a));
    (Round(FloorClamp(a, cA)), Round(FloorClamp(b, cB)))
  }

  /** Swapping the contestants and scoring `1 - s` swaps the two changes. */
  lemma CalcChangeSwap(a: real, b: real, s: real, expected: (real, real) -> real)
    ensures CalcChange(b, a, 1.0 - s, expected) == (CalcChange(a, b, s, expected).1, CalcChange(a, b, s, expected).0)
  {
  }

  /** The floor rule: below rating 100 a negative raw change becomes 0, and the
      clamp on one contestant never affects the other's change. */
  lemma CalcChangeFloor(a: real, b: real, s: real, expected: (real, real) -> real, a': real, expected': (real, real) -> real)
    requires expected'(b, a') == expected(b, a)
    ensures a < 100.0 && RawChange(a, s, expected(a, b)) < 0.0 ==> CalcChange(a, b, s, expected).0 == 0
    ensures b < 100.0 && RawChange(b, 1.0 - s, expected(b, a)) < 0.0 ==> CalcChange(a, b, s, expected).1 == 0
    ensures CalcChange(a', b, s, expected').1 == CalcChange(a, b, s, expected).1
  {
  }

  lemma RawChangeBelowK(rating: real, score: real, e: real)
    requires 0.0 <= score <= 1.0 && 0.0 < e < 1.0
    ensures -(KFactor(rating) as real) < RawChange(rating, score, e) < KFactor(rating) as real
  {
    var k := KFactor(rating) as real;
    assert -1.0 < score - e < 1.0;
    assert k * (score - e) < k * 1.0 by { MulStrict(k, score - e, 1.0); }
    assert k * -1.0 < k * (score - e) by { MulStrict(k, -1.0, score - e); }
  }

  lemma MulStrict(k: real, x: real, y: real)
    requires k > 0.0 && x < y
    ensures k * x < k * y
  {
  }

  /** With a score in [0, 1] and an expected score strictly inside (0, 1), each change
      is a whole number of magnitude at most the contestant's K-factor. */
  lemma {:induction false} CalcChangeBounded(a: real, b: real, s: real, expected: (real, real) -> real)
    requires 0.0 <= s <= 1.0
    requires 0.0 < expected(a, b) < 1.0 && 0.0 < expected(b, a) < 1.0
    ensures -KFactor(a) <= CalcChange(a, b, s, expected).0 <= KFactor(a)
    ensures -KFactor(b) <= CalcChange(a, b, s, expected).1 <= KFactor(b)
  {
    RawChangeBelowK(a, s, expected(a, b));
    RawChangeBelowK(b, 1.0 - s, expected(b, a));
  }

  /** A win never lowers the winner's rating, a loss never raises it. */
  lemma CalcChangeWinLoss(a: real, b: real, expected: (real, real) -> real)
    requires 0.0 < expected(a, b) < 1.0
    ensures CalcChange(a, b, 1.0, expected).0 >= 0
    ensures CalcChange(a, b, 0.0, expected).0 <= 0
  {
    var k := KFactor(a) as real;
    MulStrict(k, 0.0, 1.0 - expected(a, b));
    MulStrict(k, 0.0 - expected(a, b), 0.0);
  }

  /** A draw between contestants whose expected scores are one half changes nothing. */
  lemma CalcChangeDraw(a: real, b: real, expected: (real, real) -> real)
    requires expected(a, b) == 0.5 && expected(b, a) == 0.5
    ensures CalcChange(a, b, 0.5, expected) == (0, 0)
  {
  }

  /** In the same K tier, opposite scores against complementary expectations give
      opposite raw changes. */
  lemma RawChangeOpposite(a: real, b: real, s: real, e: real)
    requires KFactor(a) == KFactor(b)
    ensures RawChange(b, 1.0 - s, 1.0 - e) == -RawChange(a, s, e)
  {
    var k := KFactor(a) as real;
    assert (1.0 - s) - (1.0 - e) == -(s - e);
    MulNeg(k, s - e);
  }

  lemma MulNeg(k: real, x: real)
    ensures k * -x == -(k * x)
  {
  }

  /** In the same K tier, with complementary expected scores and no floor clamp,
      what one contestant gains the other loses. */
  lemma {:induction false} CalcChangeConservation(a: real, b: real, s: real, expected: (real, real) -> real)
    requires KFactor(a) == KFactor(b)
    requires expected(b, a) == 1.0 - expected(a, b)
    requires a >= 100.0 && b >= 100.0
    ensures CalcChange(a, b, s, expected).1 == -CalcChange(a, b, s, expected).0
  {
    var cA := RawChange(a, s, expected(a, b));
    RawChangeOpposite(a, b, s, expected(a, b));
    RoundOdd(cA);
  }
}
