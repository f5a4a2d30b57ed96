/**
 * The mask loop of `add_vignette` (BannerCollageMaker.py): on a greyscale mask
 * that starts at 0, draw 100 filled ellipses centred on the image, the `i`-th
 * with radius `int(max_radius * i / 100)` and grey level `int(255 * (i/100)**2)`.
 * A pixel is taken to lie in an ellipse when its distance from the centre is at
 * most the radius; the distances and `max_radius` are given, because they come
 * from float geometry (`math.hypot`) and from PIL's rasteriser.
 */
module Vignette {
  import Arith

  const STEPS: nat := 100

  /** `int(255 * (i / 100) ** 2)`, computed exactly. */
  function Alpha(i: nat): nat
  {
    255 * i * i / 10000
  }

  /** `int(max_radius * i / 100)`; `int` truncates, which is the floor for a non-negative radius. */
  function Radius(maxRadius: real, i: nat): int
  {
    (maxRadius * (i as real) / 100.0).Floor
  }

  /** The grey levels start at 0 and end at 249. */
  lemma AlphaEnds()
    ensures Alpha(0) == 0 && Alpha(STEPS - 1) == 249
  {
  }

  /** The grey levels never decrease, and fit in a byte. */
  lemma AlphaGrows(i: nat, j: nat)
    requires i <= j < STEPS
    ensures Alpha(i) <= Alpha(j) < 256
  {
    SquareGrows(i, j);
    SquareGrows(j, STEPS - 1);
    var a, b := 255 * (i * i), 255 * (j * j);
    assert 255 * i * i == a && 255 * j * j == b;
    assert a <= b;
    Arith.DivBracket(a, 10000);
    Arith.DivBracket(b, 10000);
    Arith.CancelFactor(a / 10000, b / 10000 + 1, 10000);
    assert b < 256 * 10000;
    Arith.DivBelow(b, 10000, 256);
  }

  lemma SquareGrows(i: nat, j: nat)
    requires i <= j
    ensures i * i <= j * j
  {
    assert j * j - i * i == (j - i) * (j + i);
  }

  /** The radii never shrink: the ellipses are drawn from the smallest to the largest. */
  lemma RadiusGrows(maxRadius: real, i: nat, j: nat)
    requires maxRadius >= 0.0 && i <= j
    ensures 0 <= Radius(maxRadius, i) <= Radius(maxRadius, j)
  {
    assert maxRadius * (i as real) <= maxRadius * (j as real) by {
      assert maxRadius * (j as real) - maxRadius * (i as real) == maxRadius * ((j - i) as real);
    }
  }

  /** The mask value at distance `d` from the centre after the first `n` ellipses: the last one covering it wins. */
  function MaskAfter(maxRadius: real, n: nat, d: real): nat
  {
    if n == 0 then 0
    else if d <= Radius(maxRadius, n - 1) as real then Alpha(n - 1)
    else MaskAfter(maxRadius, n - 1, d)
  }

  /**
   * Because each ellipse contains the ones before it and overwrites them, the
   * finished mask is the last ellipse alone: 249 inside it and 0 outside.
   */
  lemma MaskIsLastEllipse(maxRadius: real, d: real)
    requires maxRadius >= 0.0
    ensures MaskAfter(maxRadius, STEPS, d) == if d <= Radius(maxRadius, STEPS - 1) as real then 249 else 0
  {
    AlphaEnds();
    if d > Radius(maxRadius, STEPS - 1) as real {
      Uncovered(maxRadius, STEPS, d);
    }
  }

  /** A distance beyond the largest radius drawn so far is still 0. */
  lemma {:induction false} Uncovered(maxRadius: real, n: nat, d: real)
    requires maxRadius >= 0.0 && n > 0 && d > Radius(maxRadius, n - 1) as real
    ensures MaskAfter(maxRadius, n, d) == 0
  {
    if n > 1 {
      RadiusGrows(maxRadius, n - 2, n - 1);
      Uncovered(maxRadius, n - 1, d);
    }
  }

  /** The loop of lines 69-72 on a `width` x `height` mask, given each pixel's distance from the centre. */
  method VignetteMask(width: nat, height: nat, dist: (nat, nat) -> real, maxRadius: real) returns (mask: array2<nat>)
    ensures fresh(mask) && mask.Length0 == width && mask.Length1 == height
    ensures forall x, y :: 0 <= x < width && 0 <= y < height ==> mask[x, y] == MaskAfter(maxRadius, STEPS, dist(x, y))
  {
    mask := new nat[width, height]((x, y) => 0);
    var i := 0;
    while i < STEPS
      invariant 0 <= i <= STEPS
      invariant forall x, y :: 0 <= x < width && 0 <= y < height ==> mask[x, y] == MaskAfter(maxRadius, i, dist(x, y))
    {
      DrawDisc(mask, dist, Radius(maxRadius, i), Alpha(i));
      i := i + 1;
    }
  }

  /** `draw.ellipse(..., fill=alpha)`: every pixel within `radius` of the centre takes `alpha`, the others keep theirs. */
  method DrawDisc(mask: array2<nat>, dist: (nat, nat) -> real, radius: int, alpha: nat)
    modifies mask
    ensures forall x, y :: 0 <= x < mask.Length0 && 0 <= y < mask.Length1 ==>
      mask[x, y] == if dist(x, y) <= radius as real then alpha else old(mask[x, y])
  {
    forall x, y | 0 <= x < mask.Length0 && 0 <= y < mask.Length1 && dist(x, y) <= radius as real {
      mask[x, y] := alpha;
    }
  }
}
