/** The pure arithmetic of the vector skin: which mip level serves a draw
    scale, and how large the raster for a mip level is. */
module MipLevels {
  import opened Powers

  /** The smallest mip level is 1/2^MipmapOffset of the image's natural size. */
  const MipmapOffset: int := 4

  function Max(a: int, b: int): (m: int) { if a >= b then a else b }

  function MinReal(a: real, b: real): (r: real) { if a <= b then a else b }

  /** The offset makes level 0 a raster at 1/16 of the natural size, and
      level 4 the natural size itself. */
  lemma MipmapOffsetScales()
    ensures Pow2(0 - MipmapOffset) == 1.0 / 16.0
    ensures Pow2(4 - MipmapOffset) == 1.0
  {
  }

  /** `mipLevelForScale`: max(ceil(log2(scale)) + MipmapOffset, 0). A scale
      of 0 has log2 = -Infinity in the source, which the max turns into 0.
      The level is the least natural L whose raster scale 2^(L - MipmapOffset)
      covers the requested scale. */
  function MipLevelForScale(scale: real): (level: nat)
    requires scale >= 0.0
    ensures scale <= Pow2(level - MipmapOffset)
    ensures level > 0 ==> Pow2(level - 1 - MipmapOffset) < scale
  {
    if scale == 0.0 then
      0
    else
      var k := CeilLog2(scale);
      if k + MipmapOffset >= 0 then
        k + MipmapOffset
      else
        Pow2Increasing(k, -MipmapOffset);
        0
  }

  /** No level below MipLevelForScale(scale) covers the scale: the level is
      the least one whose raster is at least as large as the drawn image. */
  lemma MipLevelIsLeast(scale: real, level: nat)
    requires scale >= 0.0
    requires scale <= Pow2(level - MipmapOffset)
    ensures MipLevelForScale(scale) <= level
  {
    var m := MipLevelForScale(scale);
    if m > level {
      Pow2Increasing(level - MipmapOffset, m - 1 - MipmapOffset);
    }
  }

  /** A larger scale never selects a smaller mip level. */
  lemma MipLevelMonotonic(s1: real, s2: real)
    requires 0.0 <= s1 <= s2
    ensures MipLevelForScale(s1) <= MipLevelForScale(s2)
  {
    MipLevelIsLeast(s1, MipLevelForScale(s2));
  }

  /** Every scale in (2^(k-1), 2^k] maps to the one level max(k + 4, 0). */
  lemma MipLevelOfBucket(scale: real, k: int)
    requires Pow2(k - 1) < scale <= Pow2(k)
    ensures MipLevelForScale(scale) == Max(k + MipmapOffset, 0)
  {
    CeilLog2Unique(scale, k);
  }

  /** All scales up to 1/16 share the smallest level, 0. */
  lemma MipLevelOfSmallScale(scale: real)
    requires 0.0 <= scale <= 1.0 / 16.0
    ensures MipLevelForScale(scale) == 0
  {
  }

  /** Worked values: 1.0 lies in (1/2, 1], 1.9 in (1, 2], 2.1 in (2, 4]. */
  lemma MipLevelExamples()
    ensures MipLevelForScale(1.0) == 4
    ensures MipLevelForScale(1.5) == MipLevelForScale(1.9) == 5
    ensures MipLevelForScale(2.1) == 6
    ensures MipLevelForScale(0.07) == 1
  {
  }

  /** `Math.round` on a non-negative value: the nearest integer, halves
      rounding up. */
  function Round(x: real): (r: nat)
    requires x >= 0.0
    ensures r as real - 0.5 <= x < r as real + 0.5
  {
    (x + 0.5).Floor
  }

  lemma RoundMonotonic(x: real, y: real)
    requires 0.0 <= x <= y
    ensures Round(x) <= Round(y)
  {
  }

  /** One side of the raster for `mipLevel` in `_drawSvgToCanvas`:
      round(min(natural * 2^(mipLevel - 4), maxTextureSize)). It never exceeds
      the texture limit, equals it when the scaled size reaches the limit, and
      is otherwise the scaled size rounded to the nearest integer. */
  function RasterDimension(natural: nat, mipLevel: nat, maxTextureSize: nat): (d: nat)
    ensures d <= maxTextureSize
    ensures natural as real * Pow2(mipLevel - MipmapOffset) >= maxTextureSize as real ==>
              d == maxTextureSize
    ensures natural as real * Pow2(mipLevel - MipmapOffset) < maxTextureSize as real ==>
              d as real - 0.5 <= natural as real * Pow2(mipLevel - MipmapOffset) < d as real + 0.5
    ensures d == 0 <==>
              maxTextureSize == 0 || natural as real * Pow2(mipLevel - MipmapOffset) < 0.5
  {
    Round(MinReal(natural as real * Pow2(mipLevel - MipmapOffset), maxTextureSize as real))
  }

  /** A higher mip level never yields a smaller raster. */
  lemma RasterDimensionMonotonic(natural: nat, l1: nat, l2: nat, maxTextureSize: nat)
    requires l1 <= l2
    ensures RasterDimension(natural, l1, maxTextureSize) <= RasterDimension(natural, l2, maxTextureSize)
  {
    Pow2Increasing(l1 - MipmapOffset, l2 - MipmapOffset);
    var x1 := natural as real * Pow2(l1 - MipmapOffset);
    var x2 := natural as real * Pow2(l2 - MipmapOffset);
    assert x1 <= x2;
    RoundMonotonic(MinReal(x1, maxTextureSize as real), MinReal(x2, maxTextureSize as real));
  }
}
