/** The fixed-point numbers the catalog displays. A percentage is an integer number
    of hundredths of a percent: `ROUND(part / whole * 100, 2)` is
    `RoundHalfUp(10000 * part, whole)` hundredths. `ROUND(AVG(driver_age), 1)` is an
    integer number of tenths, rounded half away from zero. */
module Rounding {
  import opened Basics

  /** `n / d` rounded to the nearest integer, halves upwards. */
  function RoundHalfUp(n: int, d: int): (r: int)
    requires n >= 0 && d > 0
    ensures r >= 0
    ensures -d < 2 * (r * d - n) <= d
  {
    var q := (2 * n + d) / (2 * d);
    assert 2 * n + d == 2 * d * q + (2 * n + d) % (2 * d);
    q
  }

  lemma MulLe(a: int, b: int, c: int)
    requires a <= b && c >= 0
    ensures a * c <= b * c
  {
  }

  /** A rounded quotient never exceeds the rounded quotient of a larger numerator. */
  lemma RoundHalfUpMonotone(n: int, m: int, d: int)
    requires 0 <= n <= m && d > 0
    ensures RoundHalfUp(n, d) <= RoundHalfUp(m, d)
  {
    var a, b := RoundHalfUp(n, d), RoundHalfUp(m, d);
    if a > b {
      MulLe(1, a - b, d);
    }
  }

  /** `ROUND(part / whole * 100, 2)` in hundredths of a percent. */
  function Rate(part: nat, whole: nat): (r: nat)
    requires whole > 0
    ensures part <= whole ==> r <= 10000
    ensures part == 0 ==> r == 0
    ensures part == whole ==> r == 10000
    ensures -(whole as int) < 2 * (r * whole - 10000 * part) <= whole
  {
    RateExtremes(part, whole);
    RoundHalfUp(10000 * part, whole)
  }

  lemma RateExtremes(part: nat, whole: nat)
    requires whole > 0
    ensures part <= whole ==> RoundHalfUp(10000 * part, whole) <= 10000
    ensures part == 0 ==> RoundHalfUp(10000 * part, whole) == 0
    ensures part == whole ==> RoundHalfUp(10000 * part, whole) == 10000
  {
    RoundHalfUpExact(10000, whole);
    RoundHalfUpExact(0, whole);
    if part <= whole {
      RoundHalfUpMonotone(10000 * part, 10000 * whole, whole);
    }
  }

  /** An exact quotient is its own rounding. */
  lemma RoundHalfUpExact(k: nat, d: int)
    requires d > 0
    ensures RoundHalfUp(k * d, d) == k
  {
    var r := RoundHalfUp(k * d, d);
    assert r * d - k * d == (r - k) * d;
    if r > k {
      MulLe(1, r - k, d);
    } else if r < k {
      MulLe(r - k, -1, d);
    }
  }

  /** `ROUND(sum / count, 1)` in tenths, halves away from zero: a non-negative mean
      rounds a half up, a negative one rounds it down. */
  function AverageTenths(sum: int, count: nat): (r: int)
    requires count > 0
    ensures sum >= 0 ==> -(count as int) < 2 * (r * count - 10 * sum) <= count
    ensures sum < 0 ==> -(count as int) <= 2 * (r * count - 10 * sum) < count
    ensures sum >= 0 ==> r >= 0
    ensures sum <= 0 ==> r <= 0
  {
    if sum >= 0 then RoundHalfUp(10 * sum, count)
    else -RoundHalfUp(-10 * sum, count)
  }

  /** Only one number of tenths meets the rounding rule, so `AverageTenths` is
      determined by its contract. */
  lemma AverageTenthsDetermined(sum: int, count: nat, r: int)
    requires count > 0
    requires sum >= 0 ==> -(count as int) < 2 * (r * count - 10 * sum) <= count
    requires sum < 0 ==> -(count as int) <= 2 * (r * count - 10 * sum) < count
    ensures r == AverageTenths(sum, count)
  {
    var a := AverageTenths(sum, count);
    WithinHalfUnit(r * count - 10 * sum, a * count - 10 * sum, count);
    assert (r - a) * count == (r * count - 10 * sum) - (a * count - 10 * sum);
    WithinOneMultiple(r - a, count);
  }

  /** Two errors each within half of `c`, with one end of the interval open, differ by
      less than `c`. */
  lemma WithinHalfUnit(x: int, y: int, c: int)
    requires c > 0
    requires (-c < 2 * x <= c && -c < 2 * y <= c) || (-c <= 2 * x < c && -c <= 2 * y < c)
    ensures -c < x - y < c
  {
  }

  /** A multiple of `c` strictly between `-c` and `c` is zero. */
  lemma WithinOneMultiple(k: int, c: int)
    requires c > 0 && -c < k * c < c
    ensures k == 0
  {
    if k >= 1 {
      MulLe(1, k, c);
    } else if k <= -1 {
      MulLe(k, -1, c);
    }
  }

  /** The rounded share of one term of a total, in hundredths of a percent. */
  function ShareTerm<T>(w: T -> int, total: int): T -> int
  {
    t => if total > 0 && w(t) >= 0 then RoundHalfUp(10000 * w(t), total) else 0
  }

  /** Each rounded share is within half a hundredth of the exact share, so `n`
      rounded shares of one total add up to within `n` halves of 100%. */
  lemma {:induction false} ShareSumError<T>(s: seq<T>, w: T -> int, total: int)
    requires total > 0 && s != []
    requires forall i :: 0 <= i < |s| ==> w(s[i]) >= 0
    ensures -|s| * total < 2 * (SumBy(s, ShareTerm(w, total)) * total - 10000 * SumBy(s, w)) <= |s| * total
    decreases |s|
  {
    if |s| == 1 {
      assert SumBy(s[1..], ShareTerm(w, total)) == 0 && SumBy(s[1..], w) == 0;
    } else {
      ShareSumError(s[1..], w, total);
      ShareStep(|s| - 1, total, ShareTerm(w, total)(s[0]), SumBy(s[1..], ShareTerm(w, total)), w(s[0]), SumBy(s[1..], w));
    }
  }

  lemma ShareStep(k: int, total: int, r: int, rest: int, x: int, y: int)
    requires -total < 2 * (r * total - 10000 * x) <= total
    requires -k * total < 2 * (rest * total - 10000 * y) <= k * total
    ensures -(k + 1) * total < 2 * ((r + rest) * total - 10000 * (x + y)) <= (k + 1) * total
  {
    assert (r + rest) * total == r * total + rest * total;
    assert (k + 1) * total == k * total + total;
  }

  /** When the shares are taken of the terms' own sum, they add up to 100% up to
      half a hundredth per term: `-n < 2 * (sum - 10000) <= n`. */
  lemma SharesOfWholeSum<T>(s: seq<T>, w: T -> int)
    requires s != []
    requires forall i :: 0 <= i < |s| ==> w(s[i]) >= 0
    requires SumBy(s, w) > 0
    ensures -|s| < 2 * (SumBy(s, ShareTerm(w, SumBy(s, w))) - 10000) <= |s|
  {
    var total := SumBy(s, w);
    var shares := SumBy(s, ShareTerm(w, total));
    ShareSumError(s, w, total);
    assert 2 * (shares - 10000) * total == 2 * (shares * total - 10000 * total);
    DivideBounds(2 * (shares - 10000), |s|, total);
  }

  /** Dividing `-n * t < e * t <= n * t` by a positive `t`. */
  lemma DivideBounds(e: int, n: int, t: int)
    requires t > 0
    requires -n * t < e * t <= n * t
    ensures -n < e <= n
  {
    if e <= -n {
      MulLe(e, -n, t);
    } else if e > n {
      MulLe(n + 1, e, t);
    }
  }

  /** Seven terms of equal weight: each share rounds 14.2857% up to 14.29%, and the
      shares add up to 100.03%. */
  lemma SevenEqualShares()
    ensures RoundHalfUp(10000 * 1, 7) == 1429
    ensures 7 * RoundHalfUp(10000 * 1, 7) == 10003
  {
  }
}
