/** The dimension arithmetic of `resizeImage` (lib/imageUtils.ts): the longer
    side is brought down to `maxSize` and the other side scaled by the same
    factor and rounded; an image that already fits is left as it is. */
module Resize {

  datatype Dims = Dims(width: nat, height: nat)

  /** `Math.round(n / d)` for a non-negative `n` and positive `d`: the nearest
      integer, ties rounded up. */
  function RoundDiv(n: nat, d: nat): (q: nat)
    requires d > 0
    ensures -(d as int) < 2 * d * q - 2 * n <= d
  {
    (2 * n + d) / (2 * d)
  }

  /** The width and height the canvas is given for an image of `width` by
      `height` pixels and the bound `maxSize`. */
  function Resized(width: nat, height: nat, maxSize: nat): (r: Dims)
    // an image that fits is untouched
    ensures width <= maxSize && height <= maxSize ==> r == Dims(width, height)
    // landscape and too wide: width becomes maxSize, height follows within half a pixel
    ensures width > height && width > maxSize ==>
              r.width == maxSize &&
              -(width as int) < 2 * width * r.height - 2 * height * maxSize <= width
    // portrait or square and too tall: height becomes maxSize, width follows within half a pixel
    ensures height >= width && height > maxSize ==>
              r.height == maxSize &&
              -(height as int) < 2 * height * r.width - 2 * width * maxSize <= height
  {
    if width > height then
      if width > maxSize then Dims(maxSize, RoundDiv(height * maxSize, width))
      else Dims(width, height)
    else
      if height > maxSize then Dims(RoundDiv(width * maxSize, height), maxSize)
      else Dims(width, height)
  }

  lemma MulLeft(a: nat, b: nat, c: nat)
    requires a <= b
    ensures a * c <= b * c
  {
  }

  lemma MulCancel(d: nat, q: nat, m: nat)
    ensures d * q < d * m ==> q < m
  {
    if q >= m {
      MulLeft(m, q, d);
    }
  }

  /** Rounding `n / d` never overshoots an integer bound of the exact quotient. */
  lemma RoundDivAtMost(n: nat, d: nat, k: nat)
    requires d > 0 && n <= d * k
    ensures RoundDiv(n, d) <= k
  {
    var q := RoundDiv(n, d);
    assert 2 * (d * q) <= 2 * n + d;
    assert d * (k + 1) == d * k + d;
    MulCancel(d, q, k + 1);
  }

  /** Neither output side exceeds `maxSize`. */
  lemma ResizedFits(width: nat, height: nat, maxSize: nat)
    ensures Resized(width, height, maxSize).width <= maxSize
    ensures Resized(width, height, maxSize).height <= maxSize
  {
    if width > height && width > maxSize {
      MulLeft(height, width, maxSize);
      RoundDivAtMost(height * maxSize, width, maxSize);
    } else if height >= width && height > maxSize {
      MulLeft(width, height, maxSize);
      RoundDivAtMost(width * maxSize, height, maxSize);
    }
  }

  /** The image never grows: each output side is at most the input side. */
  lemma ResizedNeverGrows(width: nat, height: nat, maxSize: nat)
    ensures Resized(width, height, maxSize).width <= width
    ensures Resized(width, height, maxSize).height <= height
  {
    if width > height && width > maxSize {
      MulLeft(maxSize, width, height);
      RoundDivAtMost(height * maxSize, width, height);
    } else if height >= width && height > maxSize {
      MulLeft(maxSize, height, width);
      RoundDivAtMost(width * maxSize, height, width);
    }
  }

  /** Orientation is kept: a side that was strictly longer is not shorter
      afterwards, and a square stays square. */
  lemma ResizedKeepsOrientation(width: nat, height: nat, maxSize: nat)
    ensures width > height ==> Resized(width, height, maxSize).width >= Resized(width, height, maxSize).height
    ensures height > width ==> Resized(width, height, maxSize).height >= Resized(width, height, maxSize).width
    ensures width == height ==> Resized(width, height, maxSize).width == Resized(width, height, maxSize).height
  {
    ResizedFits(width, height, maxSize);
    if width == height && height > maxSize {
      assert RoundDiv(width * maxSize, height) == maxSize by {
        var q := RoundDiv(width * maxSize, height);
        RoundDivAtMost(width * maxSize, height, maxSize);
        if q < maxSize {
          MulLeft(q + 1, maxSize, height);
          assert false;
        }
      }
    }
  }
}
