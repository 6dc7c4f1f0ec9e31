/**
 * Fitting the image into the fixed 800 x 600 window (`resize_image_to_fixed_window`) and
 * mapping a click on the window back to a pixel of the original image (`mouse_callback`).
 * The scale `min(800 / w, 600 / h)` is kept exactly, as the ratio num / den.
 */
module Geometry {
  import opened Wrappers
  import opened Raster

  const WindowWidth: nat := 800
  const WindowHeight: nat := 600

  /** Scale num / den, resized size and centring offsets of an image in the window. */
  datatype Layout = Layout(num: nat, den: nat, newW: nat, newH: nat, xOff: nat, yOff: nat)

  /** `cv2.resize` refuses a target size with a zero side. */
  datatype ResizeError = EmptyTarget

  /**
   * l is how a w x h image is shown: the scale num / den is the smaller of 800 / w and
   * 600 / h, each resized side is the integer part of the side times the scale, the
   * resized image fits the window and fills it in one direction, and it is centred with
   * any odd pixel of margin going to the right or bottom.
   */
  predicate IsFit(w: nat, h: nat, l: Layout) {
    l.num > 0 && l.den > 0 &&
    l.num * w <= WindowWidth * l.den && l.num * h <= WindowHeight * l.den &&
    (l.num * w == WindowWidth * l.den || l.num * h == WindowHeight * l.den) &&
    l.newW * l.den <= w * l.num < (l.newW + 1) * l.den &&
    l.newH * l.den <= h * l.num < (l.newH + 1) * l.den &&
    l.newW <= WindowWidth && l.newH <= WindowHeight &&
    (l.newW == WindowWidth || l.newH == WindowHeight) &&
    2 * l.xOff <= WindowWidth - l.newW <= 2 * l.xOff + 1 &&
    2 * l.yOff <= WindowHeight - l.newH <= 2 * l.yOff + 1
  }

  /** The layout `resize_image_to_fixed_window` computes for a w x h image. */
  function Fit(w: nat, h: nat): (l: Layout)
    requires w > 0 && h > 0
    ensures IsFit(w, h, l)
  {
    // Python's min returns its first argument unless the second is strictly smaller
    var byHeight := WindowHeight * w < WindowWidth * h;
    var num: nat := if byHeight then WindowHeight else WindowWidth;
    var den: nat := if byHeight then h else w;
    FitCorrect(w, h, num, den);
    Layout(num, den, w * num / den, h * num / den, (WindowWidth - w * num / den) / 2, (WindowHeight - h * num / den) / 2)
  }

  lemma FitCorrect(w: nat, h: nat, num: nat, den: nat)
    requires w > 0 && h > 0
    requires (num, den) == if WindowHeight * w < WindowWidth * h then (WindowHeight, h) else (WindowWidth, w)
    ensures den > 0
    ensures w * num / den <= WindowWidth && h * num / den <= WindowHeight
    ensures IsFit(w, h, Layout(num, den, w * num / den, h * num / den, (WindowWidth - w * num / den) / 2, (WindowHeight - h * num / den) / 2))
  {
    ScaledSidesFit(w, h, num, den);
    var newW, newH := w * num / den, h * num / den;
    Centred(WindowWidth, newW);
    Centred(WindowHeight, newH);
    FitFromParts(w, h, Layout(num, den, newW, newH, (WindowWidth - newW) / 2, (WindowHeight - newH) / 2));
  }

  /** Half the margin, rounded down, leaves at most one pixel over. */
  lemma Centred(total: int, used: int)
    requires used <= total
    ensures 2 * ((total - used) / 2) <= total - used <= 2 * ((total - used) / 2) + 1
  {
  }

  lemma FitFromParts(w: nat, h: nat, l: Layout)
    requires l.num > 0 && l.den > 0
    requires l.num * w <= WindowWidth * l.den && l.num * h <= WindowHeight * l.den
    requires l.num * w == WindowWidth * l.den || l.num * h == WindowHeight * l.den
    requires l.newW * l.den <= w * l.num < (l.newW + 1) * l.den
    requires l.newH * l.den <= h * l.num < (l.newH + 1) * l.den
    requires l.newW <= WindowWidth && l.newH <= WindowHeight
    requires l.newW == WindowWidth || l.newH == WindowHeight
    requires 2 * l.xOff <= WindowWidth - l.newW <= 2 * l.xOff + 1
    requires 2 * l.yOff <= WindowHeight - l.newH <= 2 * l.yOff + 1
    ensures IsFit(w, h, l)
  {
  }

  lemma ScaledSidesFit(w: nat, h: nat, num: nat, den: nat)
    requires w > 0 && h > 0
    requires (num, den) == if WindowHeight * w < WindowWidth * h then (WindowHeight, h) else (WindowWidth, w)
    ensures num > 0 && den > 0
    ensures num * w <= WindowWidth * den && num * h <= WindowHeight * den
    ensures num * w == WindowWidth * den || num * h == WindowHeight * den
    ensures (w * num / den) * den <= w * num < (w * num / den + 1) * den
    ensures (h * num / den) * den <= h * num < (h * num / den + 1) * den
    ensures w * num / den <= WindowWidth && h * num / den <= WindowHeight
    ensures w * num / den == WindowWidth || h * num / den == WindowHeight
  {
    if WindowHeight * w < WindowWidth * h {
      assert num == 600 && den == h;
      assert h * num == 600 * h;
      assert w * num == 600 * w;
      DivMultiple(600, h);
      FloorAtMost(600 * w, h, WindowWidth);
      FloorBounds(600 * w, h);
    } else {
      assert num == 800 && den == w;
      assert w * num == 800 * w;
      assert h * num == 800 * h;
      DivMultiple(800, w);
      FloorAtMost(800 * h, w, WindowHeight);
      FloorBounds(800 * h, w);
    }
  }

  lemma FloorBounds(a: nat, d: nat)
    requires d > 0
    ensures (a / d) * d <= a < (a / d + 1) * d
  {
  }

  lemma DivMultiple(k: nat, d: nat)
    requires d > 0
    ensures k * d / d == k
  {
    FloorBounds(k * d, d);
    MulMonotone(k * d / d, k, d);
    MulMonotone(k + 1, k * d / d, d);
  }

  /** Multiplying by a non-negative factor keeps the order. */
  lemma MulMonotone(a: int, b: int, c: nat)
    ensures a <= b ==> a * c <= b * c
  {
    if a <= b {
      assert b * c - a * c == (b - a) * c;
    }
  }

  lemma FloorAtMost(a: nat, d: nat, m: nat)
    requires d > 0 && a <= m * d
    ensures a / d <= m
  {
    FloorBounds(a, d);
    MulMonotone(m + 1, a / d, d);
  }

  /**
   * `resize_image_to_fixed_window`: the layout, or the failure `cv2.resize` raises when a
   * side of the target rounds down to zero, which happens exactly for an image more than
   * 800 times wider than tall or 600 times taller than wide.
   */
  function ResizeToFixedWindow(w: nat, h: nat): (res: Result<Layout, ResizeError>)
    requires w > 0 && h > 0
    ensures res.Success? ==> res.value == Fit(w, h) && res.value.newW > 0 && res.value.newH > 0
    ensures res.Failure? <==> WindowWidth * h < w || WindowHeight * w < h
  {
    var l := Fit(w, h);
    EmptyTargetCases(w, h);
    if l.newW == 0 || l.newH == 0 then Failure(EmptyTarget) else Success(l)
  }

  lemma EmptyTargetCases(w: nat, h: nat)
    requires w > 0 && h > 0
    ensures Fit(w, h).newW == 0 || Fit(w, h).newH == 0 <==> WindowWidth * h < w || WindowHeight * w < h
  {
    var l := Fit(w, h);
    if WindowHeight * w < WindowWidth * h {
      assert l.num == WindowHeight && l.den == h;
      assert l.newW == w * WindowHeight / h;
      ZeroFloor(w * WindowHeight, h);
    } else {
      assert l.num == WindowWidth && l.den == w;
      assert l.newH == h * WindowWidth / w;
      ZeroFloor(h * WindowWidth, w);
    }
  }

  lemma ZeroFloor(a: nat, d: nat)
    requires d > 0
    ensures a / d == 0 <==> a < d
  {
  }

  /**
   * The window position (x, y) falls on the resized image: the bounds check accepts
   * exactly the pixels of the rectangle the image occupies in the window.
   */
  predicate OnImage(l: Layout, x: int, y: int)
    ensures l.newW > 0 && l.newH > 0 ==>
      (OnImage(l, x, y) <==> Rect(l.xOff, l.yOff, l.xOff + l.newW - 1, l.yOff + l.newH - 1).Contains(x, y))
  {
    0 <= x - l.xOff < l.newW && 0 <= y - l.yOff < l.newH
  }

  /** d / scale lies in [o, o + 1): d is in the scaled footprint of original pixel o. */
  predicate InFootprint(l: Layout, d: int, o: int) {
    o * l.num <= d * l.den < (o + 1) * l.num
  }

  /** `int(d / scale)` for a non-negative resized-image coordinate d: the o with d / scale in [o, o + 1). */
  function ToOriginal(l: Layout, d: nat): (o: nat)
    requires l.num > 0
    ensures InFootprint(l, d, o)
  {
    FloorFootprint(l, d);
    d * l.den / l.num
  }

  lemma FloorFootprint(l: Layout, d: nat)
    requires l.num > 0
    ensures InFootprint(l, d, d * l.den / l.num)
  {
    FloorBounds(d * l.den, l.num);
  }

  /**
   * A click accepted by the bounds check maps into the original image, and the resized
   * coordinate lies in the scaled footprint of the pixel it maps to.
   */
  lemma ClickMapsIntoImage(w: nat, h: nat, x: int, y: int)
    requires w > 0 && h > 0 && OnImage(Fit(w, h), x, y)
    ensures ToOriginal(Fit(w, h), x - Fit(w, h).xOff) < w
    ensures ToOriginal(Fit(w, h), y - Fit(w, h).yOff) < h
    ensures InFootprint(Fit(w, h), x - Fit(w, h).xOff, ToOriginal(Fit(w, h), x - Fit(w, h).xOff))
    ensures InFootprint(Fit(w, h), y - Fit(w, h).yOff, ToOriginal(Fit(w, h), y - Fit(w, h).yOff))
  {
    var l := Fit(w, h);
    CoordinateInside(l.num, l.den, x - l.xOff, l.newW, w);
    CoordinateInside(l.num, l.den, y - l.yOff, l.newH, h);
  }

  lemma CoordinateInside(num: nat, den: nat, d: nat, newSide: nat, side: nat)
    requires num > 0 && den > 0
    requires d < newSide && newSide * den <= side * num
    ensures d * den / num < side
    ensures (d * den / num) * num <= d * den < (d * den / num + 1) * num
  {
    FloorBounds(d * den, num);
    MulMonotone(d + 1, newSide, den);
    assert d * den < side * num;
    MulMonotone(side, d * den / num, num);
  }

  /**
   * The scale is never capped at 1: an image that fits the window is enlarged until it
   * meets the window's width or height, and left at scale 1 only when it already does.
   */
  lemma FittingImagesAreEnlarged(w: nat, h: nat)
    requires 0 < w <= WindowWidth && 0 < h <= WindowHeight
    ensures Fit(w, h).num >= Fit(w, h).den
    ensures Fit(w, h).num == Fit(w, h).den <==> w == WindowWidth || h == WindowHeight
    ensures Fit(w, h).newW >= w && Fit(w, h).newH >= h
  {
    var l := Fit(w, h);
    if WindowHeight * w < WindowWidth * h {
      assert l.num == WindowHeight && l.den == h;
    } else {
      assert l.num == WindowWidth && l.den == w;
    }
    FloorGrows(w, l.num, l.den, l.newW);
    FloorGrows(h, l.num, l.den, l.newH);
  }

  lemma FloorGrows(side: nat, num: nat, den: nat, newSide: nat)
    requires den > 0 && num >= den
    requires side * num < (newSide + 1) * den
    ensures newSide >= side
  {
    MulMonotone(den, num, side);
    MulMonotone(newSide + 1, side, den);
  }

  /** A 400 x 300 image is doubled to fill the window; the click (100, 50) picks pixel (50, 25). */
  lemma QuarterSizeImage()
    ensures Fit(400, 300) == Layout(800, 400, 800, 600, 0, 0)
    ensures ToOriginal(Fit(400, 300), 100) == 50 && ToOriginal(Fit(400, 300), 50) == 25
  {
  }
}
