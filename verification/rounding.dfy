/** Python's built-in `round` applied to an exact rational `n / d`: round to the nearest
    integer, and on an exact tie to the even neighbour ("banker's rounding"). */
module Rounding {

  function Abs(x: int): (r: nat)
    ensures r == x || r == -x
  {
    if x < 0 then -x else x
  }

  /** `r` is `n / d` rounded to the nearest integer, ties going to the even integer. */
  predicate RoundsTo(n: int, d: int, r: int)
  {
    && d > 0
    && 2 * Abs(n - r * d) <= d
    && (2 * Abs(n - r * d) == d ==> r % 2 == 0)
  }

  /** Round-half-to-even of `n / d`. */
  function RoundHalfEven(n: int, d: int): (r: int)
    requires d > 0
    ensures RoundsTo(n, d, r)
  {
    var q, m := n / d, n % d;
    assert n - q * d == m;
    assert n - (q + 1) * d == m - d;
    if 2 * m < d then q
    else if 2 * m > d then q + 1
    else if q % 2 == 0 then q
    else q + 1
  }

  /** A positive multiple of a positive `d` is at least `d`. */
  lemma {:induction false} MulAtLeast(k: int, d: int)
    requires k >= 1
    requires d > 0
    ensures k * d >= d
    decreases k
  {
    if k > 1 {
      MulAtLeast(k - 1, d);
      assert k * d == (k - 1) * d + d;
    }
  }

  /** `a * d` grows by at least `d` with each step of `a` when `d` is positive. */
  lemma MulStep(a: int, b: int, d: int)
    requires d > 0
    requires a < b
    ensures a * d + d <= b * d
  {
    MulAtLeast(b - a, d);
    assert b * d - a * d == (b - a) * d;
  }

  /** At most one integer is `n / d` rounded half to even. */
  lemma RoundsToUnique(n: int, d: int, r1: int, r2: int)
    requires RoundsTo(n, d, r1)
    requires RoundsTo(n, d, r2)
    ensures r1 == r2
  {
    if r1 < r2 {
      MulStep(r1, r2, d);
      if r1 + 1 < r2 {
        MulStep(r1 + 1, r2, d);
      }
    } else if r2 < r1 {
      MulStep(r2, r1, d);
      if r2 + 1 < r1 {
        MulStep(r2 + 1, r1, d);
      }
    }
  }

  /** Rounding `n / d` is monotone in `n`. */
  lemma RoundMonotone(n1: int, n2: int, d: int)
    requires d > 0
    requires n1 <= n2
    ensures RoundHalfEven(n1, d) <= RoundHalfEven(n2, d)
  {
    var r1, r2 := RoundHalfEven(n1, d), RoundHalfEven(n2, d);
    if r2 < r1 {
      MulStep(r2, r1, d);
      if r2 + 1 < r1 {
        MulStep(r2 + 1, r1, d);
      }
    }
  }
}
