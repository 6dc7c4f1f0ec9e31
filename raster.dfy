/**
 * Image buffers. An image value is a sequence of rows (`img[y][x]`, row-major as numpy
 * indexes `img[y, x]`); a buffer that the program overwrites in place is an `array2`.
 */
module Raster {
  import opened Color

  type Image = seq<seq<Bgr>>

  /** An OpenCV point: column first, then row. */
  type Point = (int, int)

  predicate IsGrid(im: Image, rows: nat, cols: nat) {
    |im| == rows && forall y :: 0 <= y < rows ==> |im[y]| == cols
  }

  function Min(a: int, b: int): int { if a <= b then a else b }
  function Max(a: int, b: int): int { if a <= b then b else a }

  /** A rectangle given by two opposite corners, as passed to `cv2.rectangle`. */
  datatype Rect = Rect(x1: int, y1: int, x2: int, y2: int) {
    /** A filled rectangle covers both corners and everything between them. */
    predicate Contains(x: int, y: int) {
      Min(x1, x2) <= x <= Max(x1, x2) && Min(y1, y2) <= y <= Max(y1, y2)
    }
  }

  /** The pixels of an in-place buffer, as an image value. */
  function Grid(a: array2<Bgr>): (im: Image)
    reads a
    ensures IsGrid(im, a.Length0, a.Length1)
    ensures forall y, x :: 0 <= y < a.Length0 && 0 <= x < a.Length1 ==> im[y][x] == a[y, x]
  {
    seq(a.Length0, y requires 0 <= y < a.Length0 reads a =>
      seq(a.Length1, x requires 0 <= x < a.Length1 reads a => a[y, x]))
  }

  /** Two images with the same shape and the same pixels are the same value. */
  lemma GridEqual(im: Image, jm: Image, rows: nat, cols: nat)
    requires IsGrid(im, rows, cols) && IsGrid(jm, rows, cols)
    requires forall y, x :: 0 <= y < rows && 0 <= x < cols ==> im[y][x] == jm[y][x]
    ensures im == jm
  {
    forall y | 0 <= y < rows
      ensures im[y] == jm[y]
    {
      assert |im[y]| == |jm[y]| == cols;
    }
  }

  /**
   * Rewrites every pixel of `a` in place, pixel (x, y) becoming f(x, y, old pixel).
   * Each OpenCV or numpy drawing call on a buffer is one such rewrite.
   */
  method MapPixels(a: array2<Bgr>, f: (int, int, Bgr) -> Bgr)
    modifies a
    ensures forall y, x :: 0 <= y < a.Length0 && 0 <= x < a.Length1 ==> a[y, x] == f(x, y, old(a[y, x]))
  {
    var y := 0;
    while y < a.Length0
      invariant 0 <= y <= a.Length0
      invariant forall i, j :: 0 <= i < y && 0 <= j < a.Length1 ==> a[i, j] == f(j, i, old(a[i, j]))
      invariant forall i, j :: y <= i < a.Length0 && 0 <= j < a.Length1 ==> a[i, j] == old(a[i, j])
    {
      var x := 0;
      while x < a.Length1
        invariant 0 <= x <= a.Length1
        invariant forall i, j :: 0 <= i < y && 0 <= j < a.Length1 ==> a[i, j] == f(j, i, old(a[i, j]))
        invariant forall j :: 0 <= j < x ==> a[y, j] == f(j, y, old(a[y, j]))
        invariant forall i, j :: y <= i < a.Length0 && 0 <= j < a.Length1 && (i != y || x <= j) ==> a[i, j] == old(a[i, j])
      {
        a[y, x] := f(x, y, a[y, x]);
        x := x + 1;
      }
      y := y + 1;
    }
  }
}
