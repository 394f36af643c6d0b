/**
 * The colour band of `rangeThreshold` before noise removal: the reference
 * colour widened by DELTA on every channel with OpenCV's saturating `Vec3b`
 * arithmetic, and the `inRange` test that marks a pixel when each of its
 * channels lies inside the band, bounds included.
 */
module Threshold {
  /** Half-width of the band on each channel. */
  const DELTA: int := 50

  /** Value `inRange` writes for a pixel inside the band; outside it writes 0. */
  const MASK_ON: int := 255

  /** An 8-bit unsigned channel value (`uchar`). */
  type Byte = x: int | 0 <= x < 256

  /** A three-channel pixel (`Vec3b`); here an HSV triple. */
  datatype Vec3b = Vec3b(c0: Byte, c1: Byte, c2: Byte) {
    function At(k: nat): Byte
      requires k < 3
    {
      if k == 0 then c0 else if k == 1 then c1 else c2
    }
  }

  /** A colour image, row by row. */
  type Image = seq<seq<Vec3b>>

  /** A one-channel mask image, row by row. */
  type Mask = seq<seq<Byte>>

  /** `saturate_cast<uchar>`: clamps an integer into [0, 255]. */
  function Saturate(x: int): (b: Byte)
    ensures x <= 0 ==> b == 0
    ensures 255 <= x ==> b == 255
    ensures 0 <= x <= 255 ==> b == x
  {
    if x < 0 then 0 else if x > 255 then 255 else x
  }

  /** `Vec3b - Vec3b`: channel-wise difference, saturated. */
  function Sub(a: Vec3b, b: Vec3b): (r: Vec3b)
    ensures forall k | 0 <= k < 3 ::
      r.At(k) == if a.At(k) >= b.At(k) then a.At(k) - b.At(k) else 0
  {
    Vec3b(Saturate(a.c0 - b.c0), Saturate(a.c1 - b.c1), Saturate(a.c2 - b.c2))
  }

  /** `Vec3b + Vec3b`: channel-wise sum, saturated. */
  function Add(a: Vec3b, b: Vec3b): (r: Vec3b)
    ensures forall k | 0 <= k < 3 ::
      r.At(k) == if a.At(k) + b.At(k) <= 255 then a.At(k) + b.At(k) else 255
  {
    Vec3b(Saturate(a.c0 + b.c0), Saturate(a.c1 + b.c1), Saturate(a.c2 + b.c2))
  }

  /** `Vec3b(DELTA, DELTA, DELTA)`. */
  function DeltaVec(): Vec3b {
    Vec3b(DELTA, DELTA, DELTA)
  }

  /** Lower corner of the band around `color`: DELTA below it, floored at 0. */
  function Low(color: Vec3b): (low: Vec3b)
    ensures forall k | 0 <= k < 3 ::
      && low.At(k) <= color.At(k)
      && low.At(k) == if color.At(k) >= DELTA then color.At(k) - DELTA else 0
  {
    Sub(color, DeltaVec())
  }

  /** Upper corner of the band around `color`: DELTA above it, capped at 255. */
  function High(color: Vec3b): (high: Vec3b)
    ensures forall k | 0 <= k < 3 ::
      && color.At(k) <= high.At(k)
      && high.At(k) == if color.At(k) + DELTA <= 255 then color.At(k) + DELTA else 255
  {
    Add(color, DeltaVec())
  }

  /** The per-pixel test of `inRange`: every channel within [low, high]. */
  predicate InRangePixel(p: Vec3b, low: Vec3b, high: Vec3b) {
    forall k | 0 <= k < 3 :: low.At(k) <= p.At(k) <= high.At(k)
  }

  /** `inRange` over an image: 255 where the pixel is in the band, else 0. */
  function InRange(img: Image, low: Vec3b, high: Vec3b): (m: Mask)
    ensures |m| == |img|
    ensures forall r | 0 <= r < |img| :: |m[r]| == |img[r]|
    ensures forall r, c | 0 <= r < |img| && 0 <= c < |img[r]| ::
      m[r][c] == (if InRangePixel(img[r][c], low, high) then MASK_ON else 0)
  {
    seq(|img|, r requires 0 <= r < |img| =>
      seq(|img[r]|, c requires 0 <= c < |img[r]| =>
        if InRangePixel(img[r][c], low, high) then MASK_ON else 0))
  }

  /** The mask `rangeThreshold` builds for `color` before its morphology step. */
  function ThresholdMask(img: Image, color: Vec3b): (m: Mask)
    ensures |m| == |img|
    ensures forall r | 0 <= r < |img| :: |m[r]| == |img[r]|
  {
    InRange(img, Low(color), High(color))
  }

  /**
   * The band is the reference colour widened by DELTA and clamped to the
   * byte range, so it always contains the reference colour.
   */
  lemma BandBounds(color: Vec3b, k: nat)
    requires k < 3
    ensures Low(color).At(k) == if color.At(k) - DELTA < 0 then 0 else color.At(k) - DELTA
    ensures High(color).At(k) == if color.At(k) + DELTA > 255 then 255 else color.At(k) + DELTA
    ensures 0 <= Low(color).At(k) <= color.At(k) <= High(color).At(k) <= 255
  {
  }

  /**
   * Saturation loses nothing: a pixel is inside the band exactly when each
   * channel differs from the reference by at most DELTA.
   */
  lemma InBandIffWithinDelta(p: Vec3b, color: Vec3b)
    ensures InRangePixel(p, Low(color), High(color)) <==>
      forall k | 0 <= k < 3 :: -DELTA <= p.At(k) - color.At(k) <= DELTA
  {
    forall k | 0 <= k < 3
      ensures (Low(color).At(k) <= p.At(k) <= High(color).At(k)) <==>
              (-DELTA <= p.At(k) - color.At(k) <= DELTA)
    {
      BandBounds(color, k);
    }
  }

  /** The sampled colour itself is always inside its own band. */
  lemma ReferenceInBand(color: Vec3b)
    ensures InRangePixel(color, Low(color), High(color))
  {
    InBandIffWithinDelta(color, color);
  }

  /**
   * The mask before morphology is on at a pixel exactly when the pixel is
   * within DELTA of the reference on every channel, and off otherwise.
   */
  lemma ThresholdMaskAt(img: Image, color: Vec3b, r: nat, c: nat)
    requires r < |img| && c < |img[r]|
    ensures ThresholdMask(img, color)[r][c] == MASK_ON <==>
      forall k | 0 <= k < 3 :: -DELTA <= img[r][c].At(k) - color.At(k) <= DELTA
    ensures ThresholdMask(img, color)[r][c] == 0 <==>
      exists k | 0 <= k < 3 :: !(-DELTA <= img[r][c].At(k) - color.At(k) <= DELTA)
  {
    InBandIffWithinDelta(img[r][c], color);
  }
}
