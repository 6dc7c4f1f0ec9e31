/**
 * The colour-vision-deficiency preview: the mode-to-matrix table with its `Normal`
 * fallback, and the per-pixel transform of `apply_color_blindness_simulation`, computed
 * here in exact real arithmetic (normalise by 255, multiply, clip to [0, 1], scale by 255,
 * truncate to uint8).
 */
module Simulation {
  import opened Color
  import opened Raster

  datatype Mode = Normal | Protanopia | Deuteranopia | Tritanopia

  /** The mode's name, as shown in the mode label. */
  function ModeName(m: Mode): string {
    match m
    case Normal => "Normal"
    case Protanopia => "Protanopia"
    case Deuteranopia => "Deuteranopia"
    case Tritanopia => "Tritanopia"
  }

  datatype Row = Row(c0: real, c1: real, c2: real)

  /** A 3 x 3 matrix; row i gives output channel i from the three input channels. */
  datatype Matrix = Matrix(r0: Row, r1: Row, r2: Row)

  predicate RowStochastic(row: Row) {
    0.0 <= row.c0 <= 1.0 && 0.0 <= row.c1 <= 1.0 && 0.0 <= row.c2 <= 1.0 &&
    row.c0 + row.c1 + row.c2 == 1.0
  }

  /** Coefficients in [0, 1] with every row summing to 1. */
  predicate Stochastic(m: Matrix) {
    RowStochastic(m.r0) && RowStochastic(m.r1) && RowStochastic(m.r2)
  }

  /** The table entry of each mode. */
  function MatrixOf(m: Mode): Matrix {
    match m
    case Normal => Matrix(Row(1.0, 0.0, 0.0), Row(0.0, 1.0, 0.0), Row(0.0, 0.0, 1.0))
    case Protanopia => Matrix(Row(0.56667, 0.43333, 0.0), Row(0.55833, 0.44167, 0.0), Row(0.0, 0.24167, 0.75833))
    case Deuteranopia => Matrix(Row(0.625, 0.375, 0.0), Row(0.70, 0.30, 0.0), Row(0.0, 0.30, 0.70))
    case Tritanopia => Matrix(Row(0.95, 0.05, 0.0), Row(0.0, 0.43333, 0.56667), Row(0.0, 0.475, 0.525))
  }

  /**
   * `COLOR_BLINDNESS_MATRICES`. The source keys it by the mode's name; the model keys it
   * by the mode itself, whose name `ModeName` gives.
   */
  const Matrices: map<Mode, Matrix> := map[
    Normal := MatrixOf(Normal),
    Protanopia := MatrixOf(Protanopia),
    Deuteranopia := MatrixOf(Deuteranopia),
    Tritanopia := MatrixOf(Tritanopia)]

  /**
   * `COLOR_BLINDNESS_MATRICES.get(mode, COLOR_BLINDNESS_MATRICES['Normal'])`: every mode
   * is in the table, so the lookup finds the mode's own matrix and the fallback is never taken.
   */
  function MatrixFor(m: Mode): (mx: Matrix)
    ensures m in Matrices && mx == MatrixOf(m)
    ensures Stochastic(mx)
  {
    TableCoversModes(m);
    TableStochastic(m);
    // the fallback `Matrices[Normal]` equals MatrixOf(Normal); no mode reaches it
    if m in Matrices then Matrices[m] else MatrixOf(Normal)
  }

  /** Every matrix of the table has coefficients in [0, 1] and rows summing to 1. */
  lemma TableStochastic(m: Mode)
    ensures Stochastic(MatrixOf(m))
  {
    match m
    case Normal =>
    case Protanopia =>
    case Deuteranopia =>
    case Tritanopia =>
  }

  lemma TableCoversModes(m: Mode)
    ensures m in Matrices && Matrices[m] == MatrixOf(m)
  {
    match m
    case Normal =>
    case Protanopia =>
    case Deuteranopia =>
    case Tritanopia =>
  }

  /** A coefficient times a channel normalised to [0, 1]. */
  function Weighted(c: real, v: Byte): real {
    c * (v as real / 255.0)
  }

  /** The row times the normalised channels, before clipping. */
  function WeightedSum(row: Row, v0: Byte, v1: Byte, v2: Byte): real {
    Weighted(row.c0, v0) + Weighted(row.c1, v1) + Weighted(row.c2, v2)
  }

  /** One output channel: `uint8(clip(row . (v / 255), 0, 1) * 255)`. */
  function Channel(row: Row, v0: Byte, v1: Byte, v2: Byte): (out: Byte)
    ensures WeightedSum(row, v0, v1, v2) <= 0.0 ==> out == 0
    ensures WeightedSum(row, v0, v1, v2) >= 1.0 ==> out == 255
    ensures 0.0 <= WeightedSum(row, v0, v1, v2) <= 1.0 ==>
      out as real <= WeightedSum(row, v0, v1, v2) * 255.0 < out as real + 1.0
  {
    var d := WeightedSum(row, v0, v1, v2);
    var clipped := if d < 0.0 then 0.0 else if d > 1.0 then 1.0 else d;
    (clipped * 255.0).Floor
  }

  /** With a stochastic row the weighted sum already lies in [0, 1], so the clip changes nothing. */
  lemma StochasticNeedsNoClip(row: Row, v0: Byte, v1: Byte, v2: Byte)
    requires RowStochastic(row)
    ensures 0.0 <= WeightedSum(row, v0, v1, v2) <= 1.0
  {
    ScaledWeight(row.c0, v0);
    ScaledWeight(row.c1, v1);
    ScaledWeight(row.c2, v2);
  }

  lemma ScaledWeight(c: real, v: Byte)
    requires 0.0 <= c
    ensures 0.0 <= Weighted(c, v) <= c
  {
    var f := v as real / 255.0;
    assert 0.0 <= f <= 1.0;
    assert c * f <= c * 1.0 by {
      assert c * (1.0 - f) >= 0.0;
    }
  }

  /** The pixel with its first and last stored channels exchanged. */
  function Swapped(p: Bgr): Bgr {
    Bgr(p.r, p.g, p.b)
  }

  /**
   * `cv2.transform` as the source calls it: the matrix meets the channels in the order the
   * pixel stores them, blue first, although its rows are written for red, green, blue. That
   * is the corrected transform of the pixel with blue and red exchanged, exchanged back.
   */
  function TransformStored(m: Matrix, p: Bgr): (q: Bgr)
    ensures q == Swapped(TransformPixel(m, Swapped(p)))
  {
    Bgr(Channel(m.r0, p.b, p.g, p.r), Channel(m.r1, p.b, p.g, p.r), Channel(m.r2, p.b, p.g, p.r))
  }

  /** The matrix applied as its rows are written: red, green, blue in and out. */
  function ApplyRgb(m: Matrix, c: Rgb): Rgb {
    Rgb(Channel(m.r0, c.r, c.g, c.b), Channel(m.r1, c.r, c.g, c.b), Channel(m.r2, c.r, c.g, c.b))
  }

  /** The corrected transform of a stored pixel: reorder to RGB, apply, reorder back. */
  function TransformPixel(m: Matrix, p: Bgr): (q: Bgr)
    ensures ToRgb(q) == ApplyRgb(m, ToRgb(p))
  {
    ToBgr(ApplyRgb(m, ToRgb(p)))
  }

  /** The preview: every pixel of the resized image transformed, the shape kept. */
  function SimulateImage(m: Matrix, im: Image): (sim: Image)
    ensures |sim| == |im|
    ensures forall y :: 0 <= y < |im| ==> |sim[y]| == |im[y]|
    ensures forall y, x :: 0 <= y < |im| && 0 <= x < |im[y]| ==> sim[y][x] == TransformPixel(m, im[y][x])
  {
    seq(|im|, y requires 0 <= y < |im| => seq(|im[y]|, x requires 0 <= x < |im[y]| => TransformPixel(m, im[y][x])))
  }

  lemma IdentityChannel(v0: Byte, v1: Byte, v2: Byte)
    ensures Channel(Row(1.0, 0.0, 0.0), v0, v1, v2) == v0
    ensures Channel(Row(0.0, 1.0, 0.0), v0, v1, v2) == v1
    ensures Channel(Row(0.0, 0.0, 1.0), v0, v1, v2) == v2
  {
    UnitWeight(v0);
    UnitWeight(v1);
    UnitWeight(v2);
    assert WeightedSum(Row(1.0, 0.0, 0.0), v0, v1, v2) == v0 as real / 255.0;
    assert WeightedSum(Row(0.0, 1.0, 0.0), v0, v1, v2) == v1 as real / 255.0;
    assert WeightedSum(Row(0.0, 0.0, 1.0), v0, v1, v2) == v2 as real / 255.0;
  }

  lemma UnitWeight(v: Byte)
    ensures Weighted(1.0, v) == v as real / 255.0 && Weighted(0.0, v) == 0.0
    ensures v as real / 255.0 * 255.0 == v as real
  {
  }

  /** The `Normal` matrix leaves every pixel as it is. */
  lemma NormalPixelUnchanged(p: Bgr)
    ensures TransformPixel(MatrixOf(Normal), p) == p
    ensures TransformStored(MatrixOf(Normal), p) == p
  {
    IdentityChannel(p.r, p.g, p.b);
    IdentityChannel(p.b, p.g, p.r);
  }

  /** The matrix the table gives for `Normal` leaves every pixel as it is. */
  lemma NormalMatrixKeepsPixel(p: Bgr)
    ensures TransformPixel(MatrixFor(Normal), p) == p
  {
    NormalPixelUnchanged(p);
  }

  /** In `Normal` mode the preview is the resized image itself, pixel for pixel. */
  lemma NormalPreviewIsIdentity(im: Image)
    ensures SimulateImage(MatrixFor(Normal), im) == im
  {
    forall p: Bgr ensures TransformPixel(MatrixOf(Normal), p) == p {
      NormalPixelUnchanged(p);
    }
    FixedPixelsFixedImage(MatrixOf(Normal), im);
  }

  /** A matrix that leaves every pixel as it is leaves every image as it is. */
  lemma {:induction false} FixedPixelsFixedImage(m: Matrix, im: Image)
    requires forall p: Bgr :: TransformPixel(m, p) == p
    ensures SimulateImage(m, im) == im
  {
    var sim := SimulateImage(m, im);
    forall y | 0 <= y < |im|
      ensures sim[y] == im[y]
    {
      assert |sim[y]| == |im[y]|;
      forall x | 0 <= x < |im[y]|
        ensures sim[y][x] == im[y][x]
      {
        assert sim[y][x] == TransformPixel(m, im[y][x]);
      }
    }
  }

  /**
   * Rows summing to 1 keep grey levels: under every table matrix, in either channel order,
   * a grey pixel comes out unchanged.
   */
  lemma GreyIsKept(m: Matrix, v: Byte)
    requires Stochastic(m)
    ensures TransformPixel(m, Bgr(v, v, v)) == Bgr(v, v, v)
    ensures TransformStored(m, Bgr(v, v, v)) == Bgr(v, v, v)
  {
    GreyChannel(m.r0, v);
    GreyChannel(m.r1, v);
    GreyChannel(m.r2, v);
  }

  lemma GreyChannel(row: Row, v: Byte)
    requires RowStochastic(row)
    ensures Channel(row, v, v, v) == v
  {
    var f := v as real / 255.0;
    assert WeightedSum(row, v, v, v) == (row.c0 + row.c1 + row.c2) * f;
    assert f * 255.0 == v as real;
  }

  /**
   * The source's transform disagrees with the matrix as written: a pure red pixel under
   * Protanopia stays red (0, 0, 193 in storage order) instead of becoming the olive
   * (0, 142, 144) the red, green, blue reading of the matrix gives.
   */
  lemma StoredOrderMisreadsPureRed()
    ensures TransformStored(MatrixOf(Protanopia), Bgr(0, 0, 255)) == Bgr(0, 0, 193)
    ensures ToBgr(ApplyRgb(MatrixOf(Protanopia), Rgb(255, 0, 0))) == Bgr(0, 142, 144)
    ensures TransformStored(MatrixOf(Protanopia), ToBgr(Rgb(255, 0, 0))) != ToBgr(ApplyRgb(MatrixOf(Protanopia), Rgb(255, 0, 0)))
  {
    PureRedStored();
    PureRedAsWritten();
  }

  /** Storage order: the matrix reads (0, 0, 255) as blue 255. */
  lemma PureRedStored()
    ensures TransformStored(MatrixOf(Protanopia), Bgr(0, 0, 255)) == Bgr(0, 0, 193)
  {
    var pr := MatrixOf(Protanopia);
    BlackChannel(pr.r0, 0, 0, 255);
    BlackChannel(pr.r1, 0, 0, 255);
    ProtanStoredRed();
  }

  /** Red, green, blue order: pure red becomes (144, 142, 0). */
  lemma PureRedAsWritten()
    ensures ApplyRgb(MatrixOf(Protanopia), Rgb(255, 0, 0)) == Rgb(144, 142, 0)
  {
    var pr := MatrixOf(Protanopia);
    ProtanRedFromRed();
    ProtanGreenFromRed();
    BlackChannel(pr.r2, 255, 0, 0);
  }

  lemma BlackChannel(row: Row, v0: Byte, v1: Byte, v2: Byte)
    requires WeightedSum(row, v0, v1, v2) == 0.0
    ensures Channel(row, v0, v1, v2) == 0
  {
  }

  lemma ProtanStoredRed()
    ensures Channel(MatrixOf(Protanopia).r2, 0, 0, 255) == 193
  {
    SingleChannel(MatrixOf(Protanopia).r2, 0, 0, 255, 0.75833);
  }

  lemma ProtanRedFromRed()
    ensures Channel(MatrixOf(Protanopia).r0, 255, 0, 0) == 144
  {
    SingleChannel(MatrixOf(Protanopia).r0, 255, 0, 0, 0.56667);
  }

  lemma ProtanGreenFromRed()
    ensures Channel(MatrixOf(Protanopia).r1, 255, 0, 0) == 142
  {
    SingleChannel(MatrixOf(Protanopia).r1, 255, 0, 0, 0.55833);
  }

  /** A channel whose weighted sum is already in [0, 1] is that sum scaled and truncated. */
  lemma SingleChannel(row: Row, v0: Byte, v1: Byte, v2: Byte, d: real)
    requires WeightedSum(row, v0, v1, v2) == d && 0.0 <= d <= 1.0
    ensures Channel(row, v0, v1, v2) == (d * 255.0).Floor
  {
  }

  /**
   * The matrix with red and blue exchanged on both sides: rows in reverse order, and the
   * coefficients of each row in reverse order.
   */
  function Mirrored(m: Matrix): Matrix {
    Matrix(Row(m.r2.c2, m.r2.c1, m.r2.c0), Row(m.r1.c2, m.r1.c1, m.r1.c0), Row(m.r0.c2, m.r0.c1, m.r0.c0))
  }

  /** Reversing the coefficients and the channels of a row gives the same channel. */
  lemma ReversedChannel(row: Row, v0: Byte, v1: Byte, v2: Byte)
    ensures Channel(Row(row.c2, row.c1, row.c0), v2, v1, v0) == Channel(row, v0, v1, v2)
  {
    assert WeightedSum(Row(row.c2, row.c1, row.c0), v2, v1, v0) == WeightedSum(row, v0, v1, v2);
  }

  /**
   * The two halves of the channel-order finding related: the transform as written is the
   * corrected transform under the mirrored matrix.
   */
  lemma WrittenOrderMirrorsMatrix(m: Matrix, p: Bgr)
    ensures TransformStored(m, p) == TransformPixel(Mirrored(m), p)
  {
    ReversedChannel(m.r0, p.b, p.g, p.r);
    ReversedChannel(m.r1, p.b, p.g, p.r);
    ReversedChannel(m.r2, p.b, p.g, p.r);
  }

  /**
   * A matrix that mirroring leaves as it is, such as the identity of Normal, is applied
   * correctly even in storage order.
   */
  lemma MirrorSymmetricUnaffected(m: Matrix, p: Bgr)
    requires Mirrored(m) == m
    ensures TransformStored(m, p) == TransformPixel(m, p)
  {
    WrittenOrderMirrorsMatrix(m, p);
  }

  /** The Protanopia matrix is not mirror-symmetric, which is why pure red goes wrong. */
  lemma ProtanopiaNotMirrored()
    ensures Mirrored(MatrixOf(Protanopia)) != MatrixOf(Protanopia)
    ensures Mirrored(MatrixOf(Normal)) == MatrixOf(Normal)
  {
  }
}
