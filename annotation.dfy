/**
 * The overlays both versions draw: the colour box with its label, the contrast rule for
 * the label, and (in the windowed version) the mode label on its black background.
 * The text rasteriser is outside the model: what it returns (the pixels a string's glyphs
 * cover and the string's extents) is supplied by a `TextEngine`.
 */
module Annotation {
  import opened Color
  import opened Raster
  import opened Simulation
  import opened Text

  /** The size `cv2.getTextSize` reports: width and height above the baseline, and the baseline. */
  datatype TextExtents = TextExtents(width: nat, height: nat, baseline: nat)

  /**
   * The rasteriser at the fixed font, scale and thickness both versions use:
   * `glyphs(s, o)` is the set of pixels the string `s` drawn at origin `o` covers.
   */
  datatype TextEngine = TextEngine(glyphs: (string, Point) -> set<Point>, extents: string -> TextExtents)

  /** Brightness at or above which the label is drawn in black. */
  const BrightThreshold: int := 600

  /** The filled colour box, corners (20, 20) and (750, 60). */
  const InfoRect: Rect := Rect(20, 20, 750, 60)

  /** Where the colour label starts. */
  const InfoOrigin: Point := (50, 50)

  /** The label is black on bright colours and white on all others. */
  function TextColor(c: Rgb): (t: Bgr)
    ensures t == Black <==> c.r + c.g + c.b >= BrightThreshold
    ensures t == White <==> c.r + c.g + c.b < BrightThreshold
  {
    if c.r + c.g + c.b >= BrightThreshold then Black else White
  }

  /**
   * Black text is only chosen on a colour with every channel at least 90, and white text
   * only on a colour with some channel below 200: the label never sits on a background of
   * its own colour.
   */
  lemma TextContrasts(c: Rgb)
    ensures TextColor(c) == Black ==> c.r >= 90 && c.g >= 90 && c.b >= 90
    ensures TextColor(c) == White ==> c.r < 200 || c.g < 200 || c.b < 200
    ensures TextColor(c) != ToBgr(c)
  {
  }

  /** The colour label's glyphs. */
  function InfoGlyphs(eng: TextEngine, c: ColorInfo): set<Point> {
    eng.glyphs(InfoText(c), InfoOrigin)
  }

  /**
   * One pixel after `draw_color_info` for the match `c`: the label's glyphs in the
   * contrast colour over the box filled with the colour itself, in storage order.
   */
  function InfoPixel(c: ColorInfo, glyphs: set<Point>, x: int, y: int, under: Bgr): (p: Bgr)
    ensures (x, y) in glyphs ==> p == TextColor(c.rgb)
    ensures (x, y) !in glyphs && InfoRect.Contains(x, y) ==> p == ToBgr(c.rgb) && ToRgb(p) == c.rgb
    ensures (x, y) !in glyphs && !InfoRect.Contains(x, y) ==> p == under
  {
    if (x, y) in glyphs then TextColor(c.rgb)
    else if InfoRect.Contains(x, y) then ToBgr(c.rgb)
    else under
  }

  /** The mode label's text: `f"Mode: {mode}"`. */
  function ModeText(m: Mode): (t: string)
    ensures |t| > 6 && t[..6] == "Mode: " && t[6..] == ModeName(m)
  {
    "Mode: " + ModeName(m)
  }

  /** Different modes are labelled differently. */
  lemma ModeTextInjective(m: Mode, n: Mode)
    ensures ModeText(m) == ModeText(n) <==> m == n
  {
    if ModeText(m) == ModeText(n) {
      assert ModeName(m) == ModeName(n);
      assert ModeName(m)[0] == ModeName(n)[0] && |ModeName(m)| == |ModeName(n)|;
    }
  }

  /** The mode label starts 10 pixels from the left and 10 pixels above the bottom of the window. */
  function ModeOrigin(windowHeight: int): Point {
    (10, windowHeight - 10)
  }

  /**
   * The black background of the mode label: from the origin across the text's width, from
   * the top of the text down to the baseline below the origin.
   */
  function ModeBox(origin: Point, ext: TextExtents): (r: Rect)
    ensures r.x1 == origin.0 && r.x2 - r.x1 == ext.width
    ensures origin.1 - r.y1 == ext.height + ext.baseline && r.y2 - origin.1 == ext.baseline
  {
    Rect(origin.0, origin.1 - ext.height - ext.baseline, origin.0 + ext.width, origin.1 + ext.baseline)
  }

  /**
   * What the rasteriser is relied on for: the glyphs of `s` drawn at `o` lie within the
   * extents `getTextSize` reports, from the origin across the width, from the height above
   * the origin down to the baseline below it.
   */
  predicate DrawsWithin(eng: TextEngine, s: string, o: Point) {
    var ext := eng.extents(s);
    forall p :: p in eng.glyphs(s, o) ==>
      o.0 <= p.0 <= o.0 + ext.width && o.1 - ext.height <= p.1 <= o.1 + ext.baseline
  }

  /** For such a rasteriser, the background box lies behind every glyph of the text. */
  lemma GlyphsInModeBox(eng: TextEngine, s: string, o: Point, x: int, y: int)
    requires DrawsWithin(eng, s, o) && (x, y) in eng.glyphs(s, o)
    ensures ModeBox(o, eng.extents(s)).Contains(x, y)
  {
  }

  /** One pixel after `draw_simulation_mode`: white glyphs over the black box. */
  function ModePixel(box: Rect, glyphs: set<Point>, x: int, y: int, under: Bgr): (p: Bgr)
    ensures (x, y) in glyphs ==> p == White
    ensures (x, y) !in glyphs && box.Contains(x, y) ==> p == Black
    ensures (x, y) !in glyphs && !box.Contains(x, y) ==> p == under
  {
    if (x, y) in glyphs then White
    else if box.Contains(x, y) then Black
    else under
  }
}
