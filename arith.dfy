/**
 * Facts about Euclidean division and multiplication by a positive number that
 * the crop, pool, grid and vignette arithmetic share.
 */
module Arith {

  /** Euclidean division by a positive divisor brackets the dividend. */
  lemma DivBracket(x: nat, d: nat)
    requires d > 0
    ensures (x / d) * d <= x < (x / d + 1) * d
  {
  }

  /** Quotient and remainder are the unique `q`, `m` with `x == q * d + m` and `0 <= m < d`. */
  lemma DivModUnique(x: nat, d: nat, q: nat, m: nat)
    requires d > 0 && x == q * d + m && m < d
    ensures x / d == q && x % d == m
  {
    DivBracket(x, d);
    assert (q + 1) * d == q * d + d;
    CancelFactor(x / d, q + 1, d);
    CancelFactor(q, x / d + 1, d);
  }

  /** A kept extent `w` of `n` or `n + 1`, where `n = x / d`, is within one of `x / d`. */
  lemma WithinOne(x: nat, d: nat, w: int)
    requires d > 0
    requires w == x / d || w == x / d + 1
    ensures (w - 1) * d <= x < (w + 1) * d
  {
    var n := x / d;
    DivBracket(x, d);
    assert (n - 1) * d == n * d - d;
    assert (n + 2) * d == (n + 1) * d + d;
  }

  /** `x / d` stays below `m` when `x < m * d`. */
  lemma DivBelow(x: nat, d: nat, m: nat)
    requires d > 0 && x < m * d
    ensures x / d < m
  {
    DivBracket(x, d);
    CancelFactor(x / d, m, d);
  }

  /** A positive common factor can be cancelled from a strict inequality. */
  lemma CancelFactor(a: int, b: int, d: nat)
    requires d > 0 && a * d < b * d
    ensures a < b
  {
    assert (b - a) * d == b * d - a * d;
  }

  /** The extent kept when `(whole - cut) / 2` is trimmed from both ends. */
  lemma TrimBothEnds(whole: nat, cut: nat)
    requires cut <= whole
    ensures var offset := (whole - cut) / 2;
      0 <= offset <= whole - offset && (whole - 2 * offset == cut || whole - 2 * offset == cut + 1)
  {
  }
}
