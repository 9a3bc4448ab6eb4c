/**
 * Alpha-mask compositing (the loop at the end of removeBackground in
 * src/utils/imageProcessor.ts). The RGBA buffer is the Uint8ClampedArray
 * that getImageData returns, four bytes per pixel in row-major order; the
 * mask holds one score per pixel. For every mask index i the loop stores
 * Math.round(mask[i] * 255) into byte 4 * i + 3, the alpha of pixel i.
 */
module AlphaMask {

  /** JavaScript's Math.round: the nearest integer, halves rounded towards +infinity. */
  function Round(x: real): (r: int)
    ensures r as real - 0.5 <= x < r as real + 0.5
  {
    (x + 0.5).Floor
  }

  /** The value a Uint8ClampedArray element holds after an integer is stored into it. */
  function Clamp(v: int): (c: int)
    ensures 0 <= c <= 255
    ensures 0 <= v <= 255 ==> c == v
    ensures v < 0 ==> c == 0
    ensures v > 255 ==> c == 255
  {
    if v < 0 then 0 else if v > 255 then 255 else v
  }

  /**
   * The alpha byte a mask score turns into. For a score in [0, 1] it is the
   * nearest integer to score * 255 (halves up); outside that range it
   * saturates.
   */
  function Alpha(score: real): (a: int)
    ensures 0 <= a <= 255
    ensures 0.0 <= score <= 1.0 ==> a as real - 0.5 <= score * 255.0 < a as real + 0.5
    ensures score >= 1.0 ==> a == 255
    ensures score <= 0.0 ==> a == 0
  {
    Clamp(Round(score * 255.0))
  }

  /** Higher scores never give a lower alpha. */
  lemma AlphaMonotone(s: real, t: real)
    requires s <= t
    ensures Alpha(s) <= Alpha(t)
  {
  }

  /**
   * A store into a Uint8ClampedArray: an index outside the array is
   * ignored, and the stored value is clamped to a byte.
   */
  function Store(d: seq<int>, k: int, v: int): (r: seq<int>)
    ensures |r| == |d|
    ensures forall j :: 0 <= j < |d| && j != k ==> r[j] == d[j]
    ensures 0 <= k < |d| ==> r[k] == Clamp(v)
  {
    if 0 <= k < |d| then d[k := Clamp(v)] else d
  }

  /** The buffer after the first n iterations of the mask loop. */
  function ApplyPrefix(d: seq<int>, mask: seq<real>, n: nat): (r: seq<int>)
    requires n <= |mask|
    ensures |r| == |d|
  {
    if n == 0 then d
    else Store(ApplyPrefix(d, mask, n - 1), 4 * (n - 1) + 3, Round(mask[n - 1] * 255.0))
  }

  /** The buffer after the whole mask loop. */
  function MaskedPixels(d: seq<int>, mask: seq<real>): (r: seq<int>)
    ensures |r| == |d|
  {
    ApplyPrefix(d, mask, |mask|)
  }

  /** Whether byte k of an RGBA buffer is the alpha of pixel k / 4 with k / 4 < n. */
  predicate IsWrittenAlpha(k: int, n: nat)
  {
    k >= 0 && k % 4 == 3 && k / 4 < n
  }

  /**
   * After n iterations, byte k holds the alpha of mask score k / 4 when it
   * is an alpha byte of one of the first n pixels, and its old value
   * otherwise.
   */
  lemma {:induction false} ApplyPrefixAt(d: seq<int>, mask: seq<real>, n: nat, k: int)
    requires n <= |mask| && 0 <= k < |d|
    ensures ApplyPrefix(d, mask, n)[k] == if IsWrittenAlpha(k, n) then Alpha(mask[k / 4]) else d[k]
  {
    if n > 0 {
      ApplyPrefixAt(d, mask, n - 1, k);
      if k == 4 * (n - 1) + 3 {
        assert k / 4 == n - 1;
      } else {
        assert IsWrittenAlpha(k, n) == IsWrittenAlpha(k, n - 1);
      }
    }
  }

  /** Byte-by-byte meaning of the mask loop: only written alphas change. */
  lemma MaskedPixelsAt(d: seq<int>, mask: seq<real>, k: int)
    requires 0 <= k < |d|
    ensures |MaskedPixels(d, mask)| == |d|
    ensures MaskedPixels(d, mask)[k] == if IsWrittenAlpha(k, |mask|) then Alpha(mask[k / 4]) else d[k]
  {
    ApplyPrefixAt(d, mask, |mask|, k);
  }

  /**
   * The colour bytes of every pixel, and the alpha of every pixel past the
   * end of the mask, keep their values.
   */
  lemma MaskKeepsUnwritten(d: seq<int>, mask: seq<real>)
    ensures |MaskedPixels(d, mask)| == |d|
    ensures forall k :: 0 <= k < |d| && k % 4 != 3 ==> MaskedPixels(d, mask)[k] == d[k]
    ensures forall k :: 0 <= k < |d| && k / 4 >= |mask| ==> MaskedPixels(d, mask)[k] == d[k]
  {
    forall k | 0 <= k < |d| {
      MaskedPixelsAt(d, mask, k);
    }
  }

  /**
   * When the mask has one score per pixel of a buffer of pixelCount pixels,
   * every colour byte keeps its value and every pixel takes its alpha from
   * its own score.
   */
  lemma MaskFullCoverage(d: seq<int>, mask: seq<real>, pixelCount: nat)
    requires |d| == 4 * pixelCount && |mask| == pixelCount
    ensures |MaskedPixels(d, mask)| == |d|
    ensures forall k :: 0 <= k < |d| ==>
      MaskedPixels(d, mask)[k] == if k % 4 == 3 then Alpha(mask[k / 4]) else d[k]
  {
    forall k | 0 <= k < |d|
      ensures MaskedPixels(d, mask)[k] == if k % 4 == 3 then Alpha(mask[k / 4]) else d[k]
    {
      MaskedPixelsAt(d, mask, k);
    }
  }

  /** Applying the same mask a second time changes nothing. */
  lemma MaskIdempotent(d: seq<int>, mask: seq<real>)
    ensures MaskedPixels(MaskedPixels(d, mask), mask) == MaskedPixels(d, mask)
  {
    var once := MaskedPixels(d, mask);
    MaskKeepsUnwritten(d, mask);
    forall k | 0 <= k < |d|
      ensures MaskedPixels(once, mask)[k] == once[k]
    {
      MaskedPixelsAt(d, mask, k);
      MaskedPixelsAt(once, mask, k);
    }
  }

  /** A buffer of bytes stays a buffer of bytes. */
  lemma MaskKeepsBytes(d: seq<int>, mask: seq<real>)
    requires forall k :: 0 <= k < |d| ==> 0 <= d[k] <= 255
    ensures forall k :: 0 <= k < |MaskedPixels(d, mask)| ==> 0 <= MaskedPixels(d, mask)[k] <= 255
  {
    forall k | 0 <= k < |d| {
      MaskedPixelsAt(d, mask, k);
    }
  }

  /**
   * The mask loop run in place on the pixel buffer: for each mask index i,
   * byte 4 * i + 3 takes Math.round(mask[i] * 255), stored as a clamped byte
   * and ignored when it lies past the end of the buffer.
   */
  method ApplyMask(data: array<int>, mask: seq<real>)
    modifies data
    ensures data[..] == MaskedPixels(old(data[..]), mask)
  {
    var i := 0;
    while i < |mask|
      invariant 0 <= i <= |mask|
      invariant data[..] == ApplyPrefix(old(data[..]), mask, i)
    {
      var alpha := Round(mask[i] * 255.0);
      if i * 4 + 3 < data.Length {
        data[i * 4 + 3] := Clamp(alpha);
      }
      i := i + 1;
    }
  }
}
