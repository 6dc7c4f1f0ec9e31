/**
 * The nearest-colour matcher: `recognize_color` in both versions.
 * Distances are compared squared; `np.argmin` keeps the first row among equals.
 */
module Matcher {
  import opened Wrappers
  import opened Color

  datatype MatchError = EmptyPalette

  /** Row k is nearest to q, and every earlier row is strictly farther. */
  predicate IsFirstNearest(palette: seq<PaletteEntry>, q: Rgb, k: int) {
    0 <= k < |palette| &&
    (forall j :: 0 <= j < |palette| ==> SqDist(palette[k].rgb, q) <= SqDist(palette[j].rgb, q)) &&
    (forall j :: 0 <= j < k ==> SqDist(palette[k].rgb, q) < SqDist(palette[j].rgb, q))
  }

  /** `np.argmin` over the distances of the rows to q. */
  function ArgMin(palette: seq<PaletteEntry>, q: Rgb): (k: nat)
    requires |palette| > 0
    ensures IsFirstNearest(palette, q, k)
    decreases |palette|
  {
    if |palette| == 1 then 0
    else
      var n := |palette| - 1;
      var init := palette[..n];
      var k := ArgMin(init, q);
      assert forall j :: 0 <= j < n ==> init[j] == palette[j];
      if SqDist(palette[n].rgb, q) < SqDist(palette[k].rgb, q) then n else k
  }

  /** `recognize_color(r, g, b)`; `np.argmin` of an empty array raises, modelled as a failure. */
  function RecognizeColor(palette: seq<PaletteEntry>, q: Rgb): (res: Result<ColorInfo, MatchError>)
    ensures res.Failure? <==> |palette| == 0
    ensures res.Success? ==>
      res.value.rgb == q &&
      exists k :: IsFirstNearest(palette, q, k) &&
        res.value.name == palette[k].name && res.value.hex == palette[k].hex
  {
    if |palette| == 0 then Failure(EmptyPalette)
    else
      var k := ArgMin(palette, q);
      Success(ColorInfo(palette[k].name, q, palette[k].hex))
  }

  /** The first-nearest row is unique, so the name and hex returned are determined. */
  lemma FirstNearestUnique(palette: seq<PaletteEntry>, q: Rgb, k1: int, k2: int)
    requires IsFirstNearest(palette, q, k1) && IsFirstNearest(palette, q, k2)
    ensures k1 == k2
  {
    assert SqDist(palette[k1].rgb, q) == SqDist(palette[k2].rgb, q);
  }

  /** A query equal to some row's colour is answered by the first row with exactly that colour. */
  lemma {:induction false} ExactColourFindsFirstEqualRow(palette: seq<PaletteEntry>, q: Rgb, i: nat)
    requires i < |palette| && palette[i].rgb == q
    ensures palette[ArgMin(palette, q)].rgb == q
    ensures forall j :: 0 <= j < ArgMin(palette, q) ==> palette[j].rgb != q
    ensures RecognizeColor(palette, q) == Success(ColorInfo(palette[ArgMin(palette, q)].name, q, palette[ArgMin(palette, q)].hex))
  {
    var k := ArgMin(palette, q);
    assert SqDist(palette[i].rgb, q) == 0;
    assert SqDist(palette[k].rgb, q) <= SqDist(palette[i].rgb, q);
    forall j | 0 <= j < k
      ensures palette[j].rgb != q
    {
      assert SqDist(palette[k].rgb, q) < SqDist(palette[j].rgb, q);
    }
  }

  /** Every row at least as near as the answer's row comes no earlier than it. */
  lemma {:induction false} NoEarlierRowAsNear(palette: seq<PaletteEntry>, q: Rgb, j: nat)
    requires j < |palette|
    requires SqDist(palette[j].rgb, q) <= SqDist(palette[ArgMin(palette, q)].rgb, q)
    ensures ArgMin(palette, q) <= j
    ensures SqDist(palette[j].rgb, q) == SqDist(palette[ArgMin(palette, q)].rgb, q)
  {
  }

  /** A red query is matched to "Red" rather than "Lime". */
  lemma RedBeatsLime()
    ensures RecognizeColor(
      [PaletteEntry("red", "Red", "#FF0000", Rgb(255, 0, 0)),
       PaletteEntry("lime", "Lime", "#00FF00", Rgb(0, 255, 0))],
      Rgb(250, 10, 10)).value.name == "Red"
  {
    var p := [PaletteEntry("red", "Red", "#FF0000", Rgb(255, 0, 0)),
              PaletteEntry("lime", "Lime", "#00FF00", Rgb(0, 255, 0))];
    assert SqDist(p[0].rgb, Rgb(250, 10, 10)) == 225;
    assert p[..1] == [p[0]];
  }
}
