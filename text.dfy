/**
 * The strings the picker builds from a match: Python's `str` of a channel, the `repr`
 * of the `(r, g, b)` tuple, the on-screen label and the clipboard text.
 */
module Text {
  import opened Color

  predicate IsDigit(c: char) {
    '0' <= c <= '9'
  }

  predicate AllDigits(s: string) {
    forall i :: 0 <= i < |s| ==> IsDigit(s[i])
  }

  function DigitChar(d: nat): (c: char)
    requires d < 10
    ensures IsDigit(c) && (c as int) - ('0' as int) == d
  {
    (('0' as int) + d) as char
  }

  /** Python's `str(n)` for a non-negative integer: decimal digits, no leading zero. */
  function NatToString(n: nat): (s: string)
    ensures |s| > 0 && AllDigits(s)
    ensures |s| > 1 ==> s[0] != '0'
    decreases n
  {
    if n < 10 then [DigitChar(n)] else NatToString(n / 10) + [DigitChar(n % 10)]
  }

  /** The value of a string of decimal digits. */
  function DigitsValue(s: string): nat
    requires AllDigits(s)
  {
    if s == [] then 0
    else DigitsValue(s[..|s| - 1]) * 10 + ((s[|s| - 1] as int) - ('0' as int))
  }

  /** Reading the digits back gives the number: `int(str(n)) == n`. */
  lemma {:induction false} NatToStringRoundTrip(n: nat)
    ensures DigitsValue(NatToString(n)) == n
  {
    if n >= 10 {
      var s := NatToString(n);
      NatToStringRoundTrip(n / 10);
      assert s[..|s| - 1] == NatToString(n / 10);
    }
  }

  lemma NatToStringInjective(m: nat, n: nat)
    requires NatToString(m) == NatToString(n)
    ensures m == n
  {
    NatToStringRoundTrip(m);
    NatToStringRoundTrip(n);
  }

  /** A number below 1000 prints with at most three digits, one below 100 with at most two. */
  lemma {:induction false} DigitCount(n: nat)
    ensures n < 10 ==> |NatToString(n)| == 1
    ensures n < 100 ==> |NatToString(n)| <= 2
    ensures n < 1000 ==> |NatToString(n)| <= 3
    decreases n
  {
    if n >= 10 {
      DigitCount(n / 10);
    }
  }

  /**
   * `str((r, g, b))`, for example "(255, 0, 0)": between "(0, 0, 0)" and
   * "(255, 255, 255)" in length, opened and closed by parentheses.
   */
  function TupleText(c: Rgb): (t: string)
    ensures 9 <= |t| <= 15
    ensures t[0] == '(' && t[|t| - 1] == ')'
  {
    DigitCount(c.r);
    DigitCount(c.g);
    DigitCount(c.b);
    "(" + NatToString(c.r) + ", " + NatToString(c.g) + ", " + NatToString(c.b) + ")"
  }

  /** A non-digit in `b + t` lies past the digit string `b`. */
  lemma NonDigitAfterDigits(b: string, t: string, u: string, k: int)
    requires AllDigits(b) && u == b + t
    requires 0 <= k < |u| && !IsDigit(u[k])
    ensures k >= |b|
  {
  }

  /** Two digit strings each followed by a non-digit split a common string at the same place. */
  lemma DigitsPrefix(a: string, s: string, b: string, t: string)
    requires AllDigits(a) && AllDigits(b)
    requires s != [] && t != [] && !IsDigit(s[0]) && !IsDigit(t[0])
    requires a + s == b + t
    ensures a == b && s == t
  {
    NonDigitAfterDigits(b, t, a + s, |a|);
    NonDigitAfterDigits(a, s, a + s, |b|);
    assert a == (a + s)[..|a|];
    assert s == (a + s)[|a|..];
  }

  /** A common prefix can be dropped. */
  lemma DropPrefix(p: string, s: string, t: string)
    requires p + s == p + t
    ensures s == t
  {
    assert s == (p + s)[|p|..];
    assert t == (p + t)[|p|..];
  }

  /** After a common separator, two digit fields each followed by a non-digit agree. */
  lemma FieldAfter(sep: string, a: string, s: string, b: string, t: string)
    requires AllDigits(a) && AllDigits(b)
    requires s != [] && t != [] && !IsDigit(s[0]) && !IsDigit(t[0])
    requires sep + (a + s) == sep + (b + t)
    ensures a == b && s == t
  {
    DropPrefix(sep, a + s, b + t);
    DigitsPrefix(a, s, b, t);
  }

  /** The fields of a printed tuple, and whatever follows it, are recovered one by one. */
  lemma TupleFields(r1: string, g1: string, b1: string, s1: string, r2: string, g2: string, b2: string, s2: string)
    requires AllDigits(r1) && AllDigits(g1) && AllDigits(b1)
    requires AllDigits(r2) && AllDigits(g2) && AllDigits(b2)
    requires "(" + r1 + ", " + g1 + ", " + b1 + ")" + s1 == "(" + r2 + ", " + g2 + ", " + b2 + ")" + s2
    ensures r1 == r2 && g1 == g2 && b1 == b2 && s1 == s2
  {
    var last1, last2 := ")" + s1, ")" + s2;
    var tail1, tail2 := ", " + (b1 + last1), ", " + (b2 + last2);
    var mid1, mid2 := ", " + (g1 + tail1), ", " + (g2 + tail2);
    assert "(" + r1 + ", " + g1 + ", " + b1 + ")" + s1 == "(" + (r1 + mid1);
    assert "(" + r2 + ", " + g2 + ", " + b2 + ")" + s2 == "(" + (r2 + mid2);
    FieldAfter("(", r1, mid1, r2, mid2);
    FieldAfter(", ", g1, tail1, g2, tail2);
    FieldAfter(", ", b1, last1, b2, last2);
    DropPrefix(")", s1, s2);
  }

  /** The printed tuple, followed by anything, determines the colour and what follows. */
  lemma TupleTextPrefix(c: Rgb, s: string, d: Rgb, t: string)
    requires TupleText(c) + s == TupleText(d) + t
    ensures c == d && s == t
  {
    TupleFields(NatToString(c.r), NatToString(c.g), NatToString(c.b), s,
                NatToString(d.r), NatToString(d.g), NatToString(d.b), t);
    NatToStringInjective(c.r, d.r);
    NatToStringInjective(c.g, d.g);
    NatToStringInjective(c.b, d.b);
  }

  /** The printed tuple determines the colour. */
  lemma TupleTextInjective(c: Rgb, d: Rgb)
    requires TupleText(c) == TupleText(d)
    ensures c == d
  {
    assert TupleText(c) + "" == TupleText(d) + "";
    TupleTextPrefix(c, "", d, "");
  }

  /** The label drawn in the colour box: `f"{name} RGB={rgb} HEX={hex}"`. */
  function InfoText(c: ColorInfo): (t: string)
    ensures |t| == |c.name| + 5 + |TupleText(c.rgb)| + 5 + |c.hex|
    ensures t[..|c.name|] == c.name
  {
    c.name + " RGB=" + TupleText(c.rgb) + " HEX=" + c.hex
  }

  /** The clipboard text: `f"Name: {name}, RGB: {rgb}, HEX: {hex}"`. */
  function ClipboardText(c: ColorInfo): (t: string)
    ensures |t| == 6 + |c.name| + 7 + |TupleText(c.rgb)| + 7 + |c.hex|
    ensures t[..6] == "Name: " && t[6..6 + |c.name|] == c.name
  {
    "Name: " + c.name + ", RGB: " + TupleText(c.rgb) + ", HEX: " + c.hex
  }

  /**
   * For a given colour name, the label determines the whole match: the colour and the hex
   * code can be read back from it.
   */
  lemma InfoTextDetermines(c: ColorInfo, d: ColorInfo)
    requires c.name == d.name && InfoText(c) == InfoText(d)
    ensures c == d
  {
    var p := c.name + " RGB=";
    assert InfoText(c) == p + (TupleText(c.rgb) + (" HEX=" + c.hex));
    assert InfoText(d) == p + (TupleText(d.rgb) + (" HEX=" + d.hex));
    DropPrefix(p, TupleText(c.rgb) + (" HEX=" + c.hex), TupleText(d.rgb) + (" HEX=" + d.hex));
    TupleTextPrefix(c.rgb, " HEX=" + c.hex, d.rgb, " HEX=" + d.hex);
    DropPrefix(" HEX=", c.hex, d.hex);
  }

  /** For a given colour name, the clipboard text determines the colour and the hex code. */
  lemma ClipboardTextDetermines(c: ColorInfo, d: ColorInfo)
    requires c.name == d.name && ClipboardText(c) == ClipboardText(d)
    ensures c == d
  {
    var p := "Name: " + c.name + ", RGB: ";
    assert ClipboardText(c) == p + (TupleText(c.rgb) + (", HEX: " + c.hex));
    assert ClipboardText(d) == p + (TupleText(d.rgb) + (", HEX: " + d.hex));
    DropPrefix(p, TupleText(c.rgb) + (", HEX: " + c.hex), TupleText(d.rgb) + (", HEX: " + d.hex));
    TupleTextPrefix(c.rgb, ", HEX: " + c.hex, d.rgb, ", HEX: " + d.hex);
    DropPrefix(", HEX: ", c.hex, d.hex);
  }
}
