/**
 * Bounded resize of the working canvas (resizeImageIfNeeded in
 * src/utils/imageProcessor.ts). The longer side of an image above the
 * bound is scaled to exactly MaxDimension and the other side in
 * proportion, rounded as Math.round rounds a positive quotient.
 */
module ImageResize {

  /** The fixed bound on either side of the working canvas. */
  const MaxDimension: nat := 1024

  /** Width and height of a bitmap, in pixels. */
  datatype Dims = Dims(width: nat, height: nat)

  /**
   * Math.round(a / b) for a >= 0, b > 0: the nearest integer, halves
   * rounded up. The result is characterised by lying within half a unit
   * of a / b, the half above included and the half below excluded.
   */
  function RoundDiv(a: nat, b: nat): (r: nat)
    requires b > 0
    ensures 2 * a - b < 2 * b * r <= 2 * a + b
  {
    (2 * a + b) / (2 * b)
  }

  /** The rounding is the only integer within that half-open half unit. */
  lemma RoundDivUnique(a: nat, b: nat, r: int)
    requires b > 0
    requires 2 * a - b < 2 * b * r <= 2 * a + b
    ensures r == RoundDiv(a, b)
  {
    var q := RoundDiv(a, b);
    if r < q {
      MulMonotone(2 * b, r + 1, q);
    } else if r > q {
      MulMonotone(2 * b, q + 1, r);
    }
  }

  lemma MulMonotone(k: nat, x: int, y: int)
    requires x <= y
    ensures k * x <= k * y
  {
  }

  /** Whether the image exceeds the bound on either side. */
  predicate NeedsResize(width: nat, height: nat)
  {
    width > MaxDimension || height > MaxDimension
  }

  /**
   * The working dimensions resizeImageIfNeeded gives the canvas: unchanged
   * when both sides are within the bound; otherwise the strictly wider
   * image gets width MaxDimension, and any other (a square included) gets
   * height MaxDimension. Whatever the input, neither working side exceeds
   * the bound.
   */
  function Fit(width: nat, height: nat): (d: Dims)
    ensures d.width <= MaxDimension && d.height <= MaxDimension
  {
    if NeedsResize(width, height) then
      if width > height then
        ScaledShortSide(height, width);
        Dims(MaxDimension, RoundDiv(height * MaxDimension, width))
      else
        ScaledShortSide(width, height);
        Dims(RoundDiv(width * MaxDimension, height), MaxDimension)
    else Dims(width, height)
  }

  /** An image within the bound keeps its natural dimensions. */
  lemma FitUnchangedWhenSmall(width: nat, height: nat)
    requires width <= MaxDimension && height <= MaxDimension
    ensures !NeedsResize(width, height)
    ensures Fit(width, height) == Dims(width, height)
  {
  }

  /**
   * Above the bound, the side that is strictly longer (the height on a tie)
   * becomes exactly MaxDimension.
   */
  lemma FitLongSide(width: nat, height: nat)
    requires NeedsResize(width, height)
    ensures width > height ==> Fit(width, height).width == MaxDimension
    ensures width <= height ==> Fit(width, height).height == MaxDimension
  {
  }

  /** Scaling the short side down never enlarges it and keeps it within the bound. */
  lemma ScaledShortSide(short: nat, long: nat)
    requires short <= long && long > MaxDimension
    ensures RoundDiv(short * MaxDimension, long) <= short
    ensures RoundDiv(short * MaxDimension, long) <= MaxDimension
  {
    var r := RoundDiv(short * MaxDimension, long);
    var a := short * MaxDimension;
    MulMonotone(short, MaxDimension, long);
    MulMonotone(MaxDimension, short, long);
    assert 2 * long * r < 2 * long * (short + 1);
    MulCancel(2 * long, r, short + 1);
    assert 2 * long * r < 2 * long * (MaxDimension + 1);
    MulCancel(2 * long, r, MaxDimension + 1);
  }

  lemma MulCancel(k: nat, x: int, y: int)
    requires k > 0 && k * x < k * y
    ensures x < y
  {
  }

  /** No upscaling: neither side grows. */
  lemma {:induction false} FitNoUpscaling(width: nat, height: nat)
    ensures Fit(width, height).width <= width
    ensures Fit(width, height).height <= height
  {
    if NeedsResize(width, height) {
      if width > height {
        ScaledShortSide(height, width);
      } else {
        ScaledShortSide(width, height);
      }
    }
  }

  /** The longer working side is the longer natural side, capped at the bound. */
  lemma FitLongerSideCapped(width: nat, height: nat)
    ensures var d := Fit(width, height);
      Max(d.width, d.height) == Min(Max(width, height), MaxDimension)
  {
  }

  function Max(a: nat, b: nat): (m: nat) { if a < b then b else a }

  function Min(a: nat, b: nat): (m: nat) { if a < b then a else b }

  /**
   * Aspect ratio is kept to within half a pixel: the scaled short side
   * differs from the exact short * MaxDimension / long by at most one half.
   */
  lemma FitProportional(width: nat, height: nat)
    requires NeedsResize(width, height)
    ensures var d := Fit(width, height);
      if width > height then
        2 * height * MaxDimension - width < 2 * width * d.height <= 2 * height * MaxDimension + width
      else
        2 * width * MaxDimension - height < 2 * height * d.width <= 2 * width * MaxDimension + height
  {
  }

  /**
   * For an extreme aspect ratio the short side rounds to 0: exactly when
   * short * MaxDimension / long is below one half.
   */
  lemma FitShortSideZero(width: nat, height: nat)
    requires NeedsResize(width, height)
    ensures width > height ==> (Fit(width, height).height == 0 <==> 2 * height * MaxDimension < width)
    ensures width <= height ==> (Fit(width, height).width == 0 <==> 2 * width * MaxDimension < height)
  {
    if width > height {
      ZeroIff(height * MaxDimension, width);
    } else {
      ZeroIff(width * MaxDimension, height);
    }
  }

  lemma ZeroIff(a: nat, b: nat)
    requires b > 0
    ensures RoundDiv(a, b) == 0 <==> 2 * a < b
  {
  }

  /**
   * The working canvas has a zero side exactly when the image has one, or
   * when it is resized and its short side rounds to 0.
   */
  lemma FitHasZeroSide(width: nat, height: nat)
    ensures Fit(width, height).width == 0 || Fit(width, height).height == 0 <==>
      width == 0 || height == 0 ||
      (NeedsResize(width, height) &&
       if width > height then 2 * height * MaxDimension < width else 2 * width * MaxDimension < height)
  {
    if NeedsResize(width, height) {
      FitShortSideZero(width, height);
    }
  }

  /** A 3000 x 1 strip loses its height entirely. */
  lemma StripCollapses()
    ensures Fit(3000, 1) == Dims(1024, 0)
  {
  }

  /** A 2000 x 1000 image becomes 1024 x 512; a 500 x 500 image is unchanged. */
  lemma FitExamples()
    ensures Fit(2000, 1000) == Dims(1024, 512)
    ensures Fit(500, 500) == Dims(500, 500)
    ensures Fit(2000, 2000) == Dims(1024, 1024)
  {
  }

  /** An HTML canvas element: only its pixel dimensions are modelled. */
  class Canvas {
    var width: nat
    var height: nat

    /** document.createElement('canvas'): a fresh canvas is 300 x 150. */
    constructor ()
      ensures width == 300 && height == 150
    {
      width, height := 300, 150;
    }
  }

  /**
   * resizeImageIfNeeded: sets the canvas to the working dimensions of an
   * image with the given natural dimensions and reports whether it scaled.
   * Drawing the image into the canvas is not modelled.
   */
  method ResizeImageIfNeeded(canvas: Canvas, naturalWidth: nat, naturalHeight: nat) returns (resized: bool)
    modifies canvas
    ensures resized == NeedsResize(naturalWidth, naturalHeight)
    ensures Dims(canvas.width, canvas.height) == Fit(naturalWidth, naturalHeight)
  {
    var width := naturalWidth;
    var height := naturalHeight;
    if width > MaxDimension || height > MaxDimension {
      if width > height {
        height := RoundDiv(height * MaxDimension, width);
        width := MaxDimension;
      } else {
        width := RoundDiv(width * MaxDimension, height);
        height := MaxDimension;
      }
      canvas.width := width;
      canvas.height := height;
      return true;
    }
    canvas.width := width;
    canvas.height := height;
    return false;
  }
}
