/**
 * The plain maxima and minimum the metrics are written with: `max3` and
 * `max4` from the library's maths utilities, and `Math.min` on lengths;
 * and the monotonicity of products that the timing estimates rest on.
 */
module Maxima {

  /** The larger of two scores. */
  function Max(a: real, b: real): (r: real)
  {
    if a >= b then a else b
  }

  /** The largest of three scores (`max3`). */
  function Max3(a: real, b: real, c: real): (r: real)
  {
    Max(Max(a, b), c)
  }

  /** The largest of four scores (`max4`). */
  function Max4(a: real, b: real, c: real, d: real): (r: real)
  {
    Max(Max(a, b), Max(c, d))
  }

  /** The smaller of two lengths. */
  function Min(a: int, b: int): (r: int)
    ensures r <= a && r <= b
  {
    if a <= b then a else b
  }

  /** Products of non-negative quantities grow with each factor. */
  lemma ProductMonotone(n: real, m: real, n': real, m': real)
    requires 0.0 <= n <= n' && 0.0 <= m <= m'
    ensures n * m <= n' * m'
  {
    assert n * m <= n' * m by {
      assert (n' - n) * m >= 0.0;
    }
    assert n' * m <= n' * m' by {
      assert n' * (m' - m) >= 0.0;
    }
  }
}
