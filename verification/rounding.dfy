/** Python's `round(x, 1)` and `round(x, 3)` as used for the `p` and `cosine` columns, taken
    over exact reals: to the nearest multiple of 0.1 (0.001), ties to the even multiple. */
module Rounding {

  /** The integer nearest to `y`; on a tie, the even one. */
  function NearestInt(y: real): (k: int)
    ensures -0.5 <= k as real - y <= 0.5
  {
    var f := y.Floor;
    var frac := y - f as real;
    if frac > 0.5 then f + 1
    else if frac < 0.5 then f
    else if f % 2 == 0 then f
    else f + 1
  }

  /** A larger input never rounds to a smaller integer. */
  lemma NearestIntMonotone(x: real, y: real)
    requires x <= y
    ensures NearestInt(x) <= NearestInt(y)
  {
    var fx, fy := x.Floor, y.Floor;
    if fx < fy {
      assert NearestInt(x) <= fx + 1 <= fy <= NearestInt(y);
    }
  }

  /** Integers are left alone. */
  lemma NearestIntOfInt(k: int)
    ensures NearestInt(k as real) == k
  {
    assert (k as real).Floor == k;
  }

  /** `round(x, 1)`: within 0.05 of the input. */
  function Round1(x: real): (r: real)
    ensures -0.05 <= r - x <= 0.05
  {
    NearestInt(x * 10.0) as real / 10.0
  }

  /** `round(x, 3)`: within 0.0005 of the input. */
  function Round3(x: real): (r: real)
    ensures -0.0005 <= r - x <= 0.0005
  {
    NearestInt(x * 1000.0) as real / 1000.0
  }

  /** Rounding preserves the order of its inputs (ties may merge). */
  lemma Round1Monotone(x: real, y: real)
    requires x <= y
    ensures Round1(x) <= Round1(y)
  {
    NearestIntMonotone(x * 10.0, y * 10.0);
  }

  /** A value with at most one decimal is unchanged, so rounding twice is rounding once. */
  lemma Round1Exact(k: int)
    ensures Round1(k as real / 10.0) == k as real / 10.0
  {
    NearestIntOfInt(k);
  }

  lemma Round1Idempotent(x: real)
    ensures Round1(Round1(x)) == Round1(x)
  {
    Round1Exact(NearestInt(x * 10.0));
  }

  lemma Round3Monotone(x: real, y: real)
    requires x <= y
    ensures Round3(x) <= Round3(y)
  {
    NearestIntMonotone(x * 1000.0, y * 1000.0);
  }

  /** A value with at most three decimals is unchanged. */
  lemma Round3Exact(k: int)
    ensures Round3(k as real / 1000.0) == k as real / 1000.0
  {
    NearestIntOfInt(k);
  }
}
