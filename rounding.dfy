/**
 * Integer rounding behind the Bresenham decision rule.
 *
 * Along a normalised segment the primary offset k runs over 0..d and the
 * exact secondary offset is k * a / d, where d >= a >= 0 are the primary
 * and secondary extents. Round(k, a, d) is the nearest integer to that
 * value, an exact half rounded down (toward the start of the segment),
 * written in closed form as one floor division. The rasterizer never
 * divides: it tracks the doubled error 2ka - 2nd instead, and RoundStep is
 * the bridge between the two.
 *
 * Products and quotients of two variables are written as the recursive
 * functions Mul and Quot, whose one-step unfoldings are linear; MulIsProduct
 * and Quot's contract say what they compute. This keeps nonlinear terms out
 * of the proofs of the callers, where they are costly for the solver.
 */
module Rounding {

  /** The product x * y, by repeated addition of x. */
  function Mul(x: int, y: nat): (r: int)
    ensures x >= 0 ==> r >= 0
  {
    if y == 0 then 0 else Mul(x, y - 1) + x
  }

  lemma {:induction false} MulIsProduct(x: int, y: nat)
    ensures Mul(x, y) == x * y
  {
    if y > 0 {
      MulIsProduct(x, y - 1);
    }
  }

  /** The floor of num / den, by repeated subtraction of den. */
  function Quot(num: nat, den: nat): (q: nat)
    requires den > 0
    ensures Mul(den, q) <= num < Mul(den, q) + den
    decreases num
  {
    if num < den then 0 else Quot(num - den, den) + 1
  }

  /** Doubled rounding error 2ka - 2nd of secondary offset n at primary offset k. */
  function Error2(k: nat, a: nat, d: nat, n: nat): int {
    2 * Mul(a, k) - 2 * Mul(d, n)
  }

  /** n is the nearest integer to k*a/d, an exact half rounded down (toward 0, the start). */
  predicate Nearest(k: nat, a: nat, d: nat, n: nat) {
    -(d as int) < Error2(k, a, d, n) <= d
  }

  function Round(k: nat, a: nat, d: nat): (n: nat)
    requires a <= d
    ensures d > 0 ==> Nearest(k, a, d, n)
    ensures d == 0 ==> n == 0
  {
    if d == 0 then 0
    else
      var q := Quot(2 * Mul(a, k) + d - 1, 2 * d);
      MulIsProduct(2 * d, q);
      MulIsProduct(d, q);
      q
  }

  lemma MulMono(m: int, d: int)
    requires m >= 1 && d >= 0
    ensures m * d >= d
  {
    var e := m - 1;
    assert m * d == e * d + d;
  }

  lemma MulMono2(k: nat, d: nat, a: nat)
    requires k <= d
    ensures k * a <= d * a
  {
    assert d * a == k * a + (d - k) * a;
  }

  /** For d > 0 at most one integer is nearest: the rounding is well defined. */
  lemma {:induction false} NearestUnique(k: nat, a: nat, d: nat, n: nat, m: nat)
    requires d > 0
    requires Nearest(k, a, d, n) && Nearest(k, a, d, m)
    ensures n == m
  {
    MulIsProduct(d, n);
    MulIsProduct(d, m);
    if n < m {
      assert Error2(k, a, d, n) - Error2(k, a, d, m) == 2 * ((m - n) * d);
      MulMono(m - n, d);
    } else if m < n {
      assert Error2(k, a, d, m) - Error2(k, a, d, n) == 2 * ((n - m) * d);
      MulMono(n - m, d);
    }
  }

  /**
   * One step of the incremental rule: adding 2a to the doubled error of step k
   * and, when the sum exceeds d, bumping the secondary offset and subtracting 2d,
   * yields exactly the rounding and the doubled error of step k + 1.
   */
  lemma {:induction false} RoundStep(k: nat, a: nat, d: nat)
    requires a <= d
    ensures var e := Error2(k, a, d, Round(k, a, d)) + 2 * a;
            Round(k + 1, a, d) == Round(k, a, d) + (if e > d then 1 else 0) &&
            Error2(k + 1, a, d, Round(k + 1, a, d)) == (if e > d then e - 2 * d else e)
  {
    var n := Round(k, a, d);
    var e := Error2(k, a, d, n) + 2 * a;
    MulIsProduct(a, k);
    assert e == Error2(k + 1, a, d, n);
    assert Error2(k + 1, a, d, n + 1) == e - 2 * d;
    if d > 0 {
      if e > d {
        NearestUnique(k + 1, a, d, Round(k + 1, a, d), n + 1);
      } else {
        NearestUnique(k + 1, a, d, Round(k + 1, a, d), n);
      }
    }
  }

  /** At the start of the segment the rounding is exact: offset 0. */
  lemma {:induction false} RoundAtStart(a: nat, d: nat)
    requires a <= d
    ensures Round(0, a, d) == 0
  {
    if d > 0 {
      assert Error2(0, a, d, 0) == 0;
      NearestUnique(0, a, d, Round(0, a, d), 0);
    }
  }

  /** At the far end of the segment the rounding is exact: offset a. */
  lemma {:induction false} RoundAtEnd(a: nat, d: nat)
    requires a <= d
    ensures Round(d, a, d) == a
  {
    if d > 0 {
      MulIsProduct(a, d);
      MulIsProduct(d, a);
      assert Error2(d, a, d, a) == 0;
      NearestUnique(d, a, d, Round(d, a, d), a);
    }
  }

  lemma NoOvershoot(k: nat, a: nat, d: nat, n: nat)
    requires 0 < d && k <= d && -(d as int) < 2 * (a * k) - 2 * (d * n)
    ensures n <= a
  {
    MulMono2(k, d, a);
    assert 2 * (n * d) < 2 * (d * a) + d;
    assert (n - a) * d == n * d - d * a;
    if n > a {
      MulMono(n - a, d);
    }
  }

  /** Up to the far end the rounding never passes offset a. */
  lemma {:induction false} RoundBounded(k: nat, a: nat, d: nat)
    requires a <= d && k <= d
    ensures Round(k, a, d) <= a
  {
    if d > 0 {
      var n := Round(k, a, d);
      MulIsProduct(a, k);
      MulIsProduct(d, n);
      NoOvershoot(k, a, d, n);
    }
  }

  /** Consecutive roundings differ by 0 or 1: no secondary step is skipped. */
  lemma {:induction false} RoundIncrement(k: nat, a: nat, d: nat)
    requires a <= d
    ensures Round(k, a, d) <= Round(k + 1, a, d) <= Round(k, a, d) + 1
  {
    RoundStep(k, a, d);
  }

  /** With no secondary extent the rounding never leaves the start. */
  lemma {:induction false} RoundFlat(k: nat, d: nat)
    ensures Round(k, 0, d) == 0
  {
    if d > 0 {
      MulIsProduct(0, k);
      assert Error2(k, 0, d, 0) == 0;
      NearestUnique(k, 0, d, Round(k, 0, d), 0);
    }
  }
}
