/** The rounding rules of av_rescale_q and av_rescale_q_rnd, and what the
    plugin relies on them for. Quotients are given as numerator and positive
    denominator. */
module Rescale {

  /** r is num/den to the nearest integer, halves away from zero. */
  ghost predicate IsNear(num: int, den: int, r: int) {
    && (num >= 0 ==> 2 * num - den < 2 * (r * den) <= 2 * num + den)
    && (num <= 0 ==> 2 * num - den <= 2 * (r * den) < 2 * num + den)
  }

  /** AV_ROUND_NEAR_INF. */
  function Near(num: int, den: int): (r: int)
    requires den > 0
    ensures IsNear(num, den, r)
    ensures -den <= 2 * (r * den - num) <= den
    ensures 2 * (r * den - num) == den ==> num > 0
    ensures 2 * (r * den - num) == -den ==> num < 0
  {
    if num >= 0 then (2 * num + den) / (2 * den) else -((-2 * num + den) / (2 * den))
  }

  /** Towards plus infinity (AV_ROUND_UP). */
  function Up(num: int, den: int): (r: int)
    requires den > 0
    ensures (r - 1) * den < num <= r * den
  {
    -((-num) / den)
  }

  lemma Product(m: nat, n: nat)
    ensures m * n >= 0
  {
  }

  lemma Distribute(m: int, n: int, factor: int)
    ensures (n - m) * factor == n * factor - m * factor
  {
  }

  lemma Scale(m: int, n: int, factor: int)
    requires m <= n && factor >= 0
    ensures m * factor <= n * factor
  {
    Product(n - m, factor);
    Distribute(m, n, factor);
  }

  /** Whole quotients that are apart have products at least one divisor apart. */
  lemma Apart(m: int, n: int, den: int)
    requires den > 0 && m > n
    ensures m * den >= n * den + den
  {
    Scale(n + 1, m, den);
    Distribute(1, n + 1, den);
  }

  /** Larger numerators never round lower; in particular IsNear has at most
      one solution. */
  lemma IsNearMonotone(x: int, y: int, den: int, m: int, n: int)
    requires den > 0 && x <= y && IsNear(x, den, m) && IsNear(y, den, n)
    ensures m <= n
  {
    if m > n { Apart(m, n, den); }
  }

  lemma NearMonotone(x: int, y: int, den: int)
    requires den > 0 && x <= y
    ensures Near(x, den) <= Near(y, den)
  {
    IsNearMonotone(x, y, den, Near(x, den), Near(y, den));
  }
}
