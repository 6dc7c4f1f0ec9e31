/**
 * Colours, pixels and the palette rows shared by both versions of the colour picker.
 * OpenCV stores pixels blue-first; the picker reports colours red-first.
 */
module Color {
  /** One 8-bit channel, as held in a `uint8` image or a palette column. */
  type Byte = x: int | 0 <= x < 256

  /** A colour in red, green, blue order (the `rgb` tuple of `ColorInfo`). */
  datatype Rgb = Rgb(r: Byte, g: Byte, b: Byte)

  /** A pixel in OpenCV's storage order: blue, green, red. */
  datatype Bgr = Bgr(b: Byte, g: Byte, r: Byte)

  const Black: Bgr := Bgr(0, 0, 0)
  const White: Bgr := Bgr(255, 255, 255)

  /** One row of the colour table: internal id, display name, hex code and channels. */
  datatype PaletteEntry = PaletteEntry(id: string, name: string, hex: string, rgb: Rgb)

  /** The result of a lookup: the palette row's name and hex with the queried colour. */
  datatype ColorInfo = ColorInfo(name: string, rgb: Rgb, hex: string)

  /** `b, g, r = img[y, x]` followed by the call with `(r, g, b)`. */
  function ToRgb(p: Bgr): Rgb {
    Rgb(p.r, p.g, p.b)
  }

  /** `rgb[::-1]`: the colour written back as an OpenCV pixel. */
  function ToBgr(c: Rgb): (p: Bgr)
    ensures ToRgb(p) == c
  {
    Bgr(c.b, c.g, c.r)
  }

  /** Squared Euclidean distance in RGB space; it orders rows exactly as the square root does. */
  function SqDist(a: Rgb, b: Rgb): (d: nat)
    ensures d == 0 <==> a == b
  {
    var dr, dg, db := a.r - b.r, a.g - b.g, a.b - b.b;
    SquareZero(dr);
    SquareZero(dg);
    SquareZero(db);
    dr * dr + dg * dg + db * db
  }

  lemma SquareZero(x: int)
    ensures x * x >= 0
    ensures x * x == 0 <==> x == 0
  {
    if x < 0 {
      assert x * x == (-x) * (-x);
    }
  }
}
