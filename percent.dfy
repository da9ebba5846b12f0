/**
 * `Math.round(num / den * 100)` for non-negative integers, in whole percent:
 * the nearest integer to 100 * num / den, halves rounded up.
 */
module Percent {

  /** Floor division brackets its dividend. */
  lemma DivBracket(x: nat, d: nat)
    requires d > 0
    ensures d * (x / d) <= x < d * (x / d + 1)
  {
    var q, m := x / d, x % d;
    assert x == d * q + m;
    assert d * (q + 1) == d * q + d;
  }

  lemma MulMonotone(d: nat, x: nat, y: nat)
    requires x <= y
    ensures d * x <= d * y
  {
  }

  function RoundPercent(num: nat, den: nat): (r: nat)
    requires den > 0
    ensures 2 * den * r <= 200 * num + den < 2 * den * (r + 1)
  {
    DivBracket(200 * num + den, 2 * den);
    (200 * num + den) / (2 * den)
  }

  /** Rounding to whole percent reaches `p` exactly when the exact ratio reaches `p - 1/2`. */
  lemma {:induction false} RoundPercentAtLeast(num: nat, den: nat, p: nat)
    requires den > 0
    ensures RoundPercent(num, den) >= p <==> 200 * num + den >= 2 * den * p
  {
    var r := RoundPercent(num, den);
    if r >= p {
      MulMonotone(2 * den, p, r);
    } else {
      MulMonotone(2 * den, r + 1, p);
    }
  }

  /** The bounds a ratio of at most one keeps: 0 for 0, 100 for 1, never above 100. */
  lemma {:induction false} RoundPercentBounds(num: nat, den: nat)
    requires den > 0
    ensures num <= den ==> RoundPercent(num, den) <= 100
    ensures RoundPercent(num, den) == 100 <==> 200 * num >= 199 * den && 200 * num < 201 * den
    ensures num == den ==> RoundPercent(num, den) == 100
    ensures num == 0 ==> RoundPercent(num, den) == 0
  {
    RoundPercentAtLeast(num, den, 100);
    RoundPercentAtLeast(num, den, 101);
    RoundPercentAtLeast(num, den, 1);
  }

  /** A ratio below 1 over fewer than 200 parts rounds below 100. */
  lemma RoundPercentBelowFull(num: nat, den: nat)
    requires num < den < 200
    ensures RoundPercent(num, den) < 100
  {
    RoundPercentAtLeast(num, den, 100);
    assert 200 * num + den < 2 * den * 100;
  }
}
