/**
 * The first version of the colour picker (`ColorRecognitionApp` of recog.py): the image is
 * shown at its own size, a double-click looks up the pixel under the pointer, and the next
 * frame paints the colour box into the image itself. The `clicked` flag makes each click
 * paint at most once.
 */
module Recog {
  import opened Wrappers
  import opened Color
  import opened Raster
  import opened Matcher
  import opened Annotation
  import opened Interaction

  /** What this version keeps: the (painted-on) image, the `clicked` flag and the current match. */
  datatype RecogState = RecogState(img: Image, clicked: bool, current: Option<ColorInfo>)

  /** Whether an event is a double-click. */
  predicate IsDoubleClick(ev: MouseEvent) {
    ev.event == EventLButtonDblClk
  }

  /** The callback indexes the image without a bounds check, so every double-click must lie on it. */
  predicate ClicksInside(rows: nat, cols: nat, evs: seq<MouseEvent>) {
    forall i :: 0 <= i < |evs| && IsDoubleClick(evs[i]) ==> 0 <= evs[i].y < rows && 0 <= evs[i].x < cols
  }

  predicate ScriptInside(rows: nat, cols: nat, frames: seq<FrameInput>) {
    forall i :: 0 <= i < |frames| ==> ClicksInside(rows, cols, frames[i].events)
  }

  /** `mouse_callback`: a double-click sets the flag and looks up the pixel under the pointer. */
  function RecogMouse(palette: seq<PaletteEntry>, rows: nat, cols: nat, st: RecogState, ev: MouseEvent): (r: RecogState)
    requires |palette| > 0 && IsGrid(st.img, rows, cols)
    requires IsDoubleClick(ev) ==> 0 <= ev.y < rows && 0 <= ev.x < cols
    ensures r.img == st.img
    ensures !IsDoubleClick(ev) ==> r == st
    ensures IsDoubleClick(ev) ==>
      r.clicked && r.current.Some? &&
      r.current.value.rgb == ToRgb(st.img[ev.y][ev.x]) &&
      Success(r.current.value) == RecognizeColor(palette, ToRgb(st.img[ev.y][ev.x]))
  {
    if IsDoubleClick(ev) then
      st.(clicked := true, current := Some(RecognizeColor(palette, ToRgb(st.img[ev.y][ev.x])).value))
    else
      st
  }

  /** Whether a batch of events holds a double-click. */
  predicate HasDoubleClick(evs: seq<MouseEvent>) {
    exists i :: 0 <= i < |evs| && IsDoubleClick(evs[i])
  }

  /** The events of one `waitKey`, in order. The flag ends up set exactly when it was or a double-click came. */
  function RecogEvents(palette: seq<PaletteEntry>, rows: nat, cols: nat, st: RecogState, evs: seq<MouseEvent>): (r: RecogState)
    requires |palette| > 0 && IsGrid(st.img, rows, cols) && ClicksInside(rows, cols, evs)
    ensures r.img == st.img
    ensures r.clicked <==> st.clicked || HasDoubleClick(evs)
    ensures st.current.Some? || HasDoubleClick(evs) ==> r.current.Some?
    ensures !HasDoubleClick(evs) ==> r == st
    decreases |evs|
  {
    if |evs| == 0 then st
    else
      var init := evs[..|evs| - 1];
      assert forall i :: 0 <= i < |init| ==> init[i] == evs[i];
      var mid := RecogEvents(palette, rows, cols, st, init);
      assert HasDoubleClick(evs) <==> HasDoubleClick(init) || IsDoubleClick(evs[|evs| - 1]);
      RecogMouse(palette, rows, cols, mid, evs[|evs| - 1])
  }

  /**
   * The match after a batch of events is the lookup of the pixel under its last
   * double-click, whatever other events follow it.
   */
  lemma {:induction false} RecogLastClickWins(palette: seq<PaletteEntry>, rows: nat, cols: nat, st: RecogState, evs: seq<MouseEvent>, ev: MouseEvent, rest: seq<MouseEvent>)
    requires |palette| > 0 && IsGrid(st.img, rows, cols) && ClicksInside(rows, cols, evs + [ev] + rest)
    requires IsDoubleClick(ev) && 0 <= ev.y < rows && 0 <= ev.x < cols
    requires forall i :: 0 <= i < |rest| ==> !IsDoubleClick(rest[i])
    ensures RecogEvents(palette, rows, cols, st, evs + [ev] + rest).current ==
      Some(RecognizeColor(palette, ToRgb(st.img[ev.y][ev.x])).value)
    decreases |rest|
  {
    var all := evs + [ev] + rest;
    if |rest| == 0 {
      assert all == evs + [ev];
      assert all[..|all| - 1] == evs;
    } else {
      var init := rest[..|rest| - 1];
      assert all[..|all| - 1] == evs + [ev] + init;
      assert all[|all| - 1] == rest[|rest| - 1];
      assert forall i :: 0 <= i < |evs + [ev] + init| ==> (evs + [ev] + init)[i] == all[i];
      RecogLastClickWins(palette, rows, cols, st, evs, ev, init);
    }
  }

  /** `draw_color_info` for the match `c`: the colour box and its label painted over the image. */
  function DrawInfo(im: Image, c: ColorInfo, glyphs: set<Point>): (r: Image)
    ensures |r| == |im| && forall y :: 0 <= y < |im| ==> |r[y]| == |im[y]|
    ensures forall y, x :: 0 <= y < |im| && 0 <= x < |im[y]| ==> r[y][x] == InfoPixel(c, glyphs, x, y, im[y][x])
  {
    seq(|im|, y requires 0 <= y < |im| => seq(|im[y]|, x requires 0 <= x < |im[y]| => InfoPixel(c, glyphs, x, y, im[y][x])))
  }

  /**
   * The painting done at the top of one loop iteration: when the flag is set, the colour
   * info (if any) is painted into the image and the flag is cleared.
   */
  function PaintIfClicked(eng: TextEngine, st: RecogState): (r: RecogState)
    ensures !r.clicked && r.current == st.current
    ensures st.clicked && st.current.Some? ==> r.img == DrawInfo(st.img, st.current.value, InfoGlyphs(eng, st.current.value))
    ensures !st.clicked || st.current.None? ==> r.img == st.img
  {
    if st.clicked then
      var img := if st.current.Some? then DrawInfo(st.img, st.current.value, InfoGlyphs(eng, st.current.value)) else st.img;
      RecogState(img, false, st.current)
    else st
  }

  /** What a run has produced: the state, the number of frames that painted, the frames run, and whether ESC ended it. */
  datatype RecogRunResult = RecogRunResult(state: RecogState, draws: nat, framesRun: nat, quit: bool)

  /** One loop iteration: paint if clicked, show, deliver the events, check for ESC. */
  function RecogStep(palette: seq<PaletteEntry>, eng: TextEngine, rows: nat, cols: nat, r: RecogRunResult, f: FrameInput): (n: RecogRunResult)
    requires |palette| > 0 && IsGrid(r.state.img, rows, cols) && ClicksInside(rows, cols, f.events)
    ensures IsGrid(n.state.img, rows, cols)
    ensures n.framesRun == r.framesRun + 1 && (n.quit <==> IsQuitKey(f))
    ensures n.draws == r.draws + (if r.state.clicked then 1 else 0)
    ensures n.state.clicked <==> HasDoubleClick(f.events)
    ensures r.state.clicked && r.state.current.Some? ==>
      n.state.img == DrawInfo(r.state.img, r.state.current.value, InfoGlyphs(eng, r.state.current.value))
    ensures !r.state.clicked || r.state.current.None? ==> n.state.img == r.state.img
    ensures !HasDoubleClick(f.events) ==> n.state.current == r.state.current
    ensures r.state.current.Some? || HasDoubleClick(f.events) ==> n.state.current.Some?
  {
    var painted := PaintIfClicked(eng, r.state);
    var st := RecogEvents(palette, rows, cols, painted, f.events);
    RecogRunResult(st, r.draws + (if r.state.clicked then 1 else 0), r.framesRun + 1, IsQuitKey(f))
  }

  /** `run`: the loop over the frames of a script, until ESC or the end of the script. */
  function RecogRunSpec(palette: seq<PaletteEntry>, eng: TextEngine, rows: nat, cols: nat, st: RecogState, frames: seq<FrameInput>): (r: RecogRunResult)
    requires |palette| > 0 && IsGrid(st.img, rows, cols) && ScriptInside(rows, cols, frames)
    ensures IsGrid(r.state.img, rows, cols)
    ensures r.draws <= r.framesRun <= |frames|
    ensures !r.quit ==> r.framesRun == |frames|
    decreases |frames|
  {
    if |frames| == 0 then RecogRunResult(st, 0, 0, false)
    else
      var init := frames[..|frames| - 1];
      assert forall i :: 0 <= i < |init| ==> init[i] == frames[i];
      var prev := RecogRunSpec(palette, eng, rows, cols, st, init);
      if prev.quit then prev else RecogStep(palette, eng, rows, cols, prev, frames[|frames| - 1])
  }

  /** The run over one more frame of a script is one more step, unless ESC already ended it. */
  lemma RecogRunStep(palette: seq<PaletteEntry>, eng: TextEngine, rows: nat, cols: nat, st: RecogState, frames: seq<FrameInput>, n: nat)
    requires |palette| > 0 && IsGrid(st.img, rows, cols) && ScriptInside(rows, cols, frames) && n < |frames|
    ensures ScriptInside(rows, cols, frames[..n]) && ScriptInside(rows, cols, frames[..n + 1])
    ensures RecogRunSpec(palette, eng, rows, cols, st, frames[..n + 1]) ==
      var prev := RecogRunSpec(palette, eng, rows, cols, st, frames[..n]);
      if prev.quit then prev else RecogStep(palette, eng, rows, cols, prev, frames[n])
  {
    assert frames[..n + 1][..n] == frames[..n];
  }

  function Bit(b: bool): nat {
    if b then 1 else 0
  }

  /** The number of frames whose events hold a double-click. */
  function ClickFrames(frames: seq<FrameInput>): nat
    decreases |frames|
  {
    if |frames| == 0 then 0
    else ClickFrames(frames[..|frames| - 1]) + Bit(HasDoubleClick(frames[|frames| - 1].events))
  }

  /**
   * The flag protocol: a frame paints exactly when the flag was set at its start, and the
   * flag is set at its end exactly when the frame had a double-click. So the paintings, plus
   * a pending flag, are the initial flag plus the frames with a double-click.
   */
  lemma {:induction false} PaintsOncePerClick(palette: seq<PaletteEntry>, eng: TextEngine, rows: nat, cols: nat, st: RecogState, frames: seq<FrameInput>)
    requires |palette| > 0 && IsGrid(st.img, rows, cols) && ScriptInside(rows, cols, frames)
    ensures RecogRunSpec(palette, eng, rows, cols, st, frames).framesRun <= |frames|
    ensures RecogRunSpec(palette, eng, rows, cols, st, frames).draws + Bit(RecogRunSpec(palette, eng, rows, cols, st, frames).state.clicked) ==
      Bit(st.clicked) + ClickFrames(frames[..RecogRunSpec(palette, eng, rows, cols, st, frames).framesRun])
    decreases |frames|
  {
    if |frames| > 0 {
      var init := frames[..|frames| - 1];
      assert forall i :: 0 <= i < |init| ==> init[i] == frames[i];
      var prev := RecogRunSpec(palette, eng, rows, cols, st, init);
      PaintsOncePerClick(palette, eng, rows, cols, st, init);
      assert init[..prev.framesRun] == frames[..prev.framesRun];
      if !prev.quit {
        var n := prev.framesRun + 1;
        assert n == |frames|;
        assert frames[..n] == frames;
        assert frames[..n][..n - 1] == init;
      }
    }
  }

  /** The paintings never outnumber the initial flag plus the frames with a double-click. */
  lemma AtMostOnePaintPerClick(palette: seq<PaletteEntry>, eng: TextEngine, rows: nat, cols: nat, st: RecogState, frames: seq<FrameInput>)
    requires |palette| > 0 && IsGrid(st.img, rows, cols) && ScriptInside(rows, cols, frames)
    ensures RecogRunSpec(palette, eng, rows, cols, st, frames).framesRun <= |frames|
    ensures RecogRunSpec(palette, eng, rows, cols, st, frames).draws <=
      Bit(st.clicked) + ClickFrames(frames[..RecogRunSpec(palette, eng, rows, cols, st, frames).framesRun])
  {
    PaintsOncePerClick(palette, eng, rows, cols, st, frames);
  }

  /** The loop ends exactly at the first frame whose key is ESC; without one it runs the whole script. */
  lemma {:induction false} RecogStopsAtFirstEsc(palette: seq<PaletteEntry>, eng: TextEngine, rows: nat, cols: nat, st: RecogState, frames: seq<FrameInput>)
    requires |palette| > 0 && IsGrid(st.img, rows, cols) && ScriptInside(rows, cols, frames)
    ensures RecogRunSpec(palette, eng, rows, cols, st, frames).framesRun <= |frames|
    ensures RecogRunSpec(palette, eng, rows, cols, st, frames).quit ==>
      RecogRunSpec(palette, eng, rows, cols, st, frames).framesRun > 0 &&
      IsQuitKey(frames[RecogRunSpec(palette, eng, rows, cols, st, frames).framesRun - 1])
    ensures forall i :: 0 <= i < RecogRunSpec(palette, eng, rows, cols, st, frames).framesRun - 1 ==> !IsQuitKey(frames[i])
    ensures !RecogRunSpec(palette, eng, rows, cols, st, frames).quit ==>
      RecogRunSpec(palette, eng, rows, cols, st, frames).framesRun == |frames| && forall i :: 0 <= i < |frames| ==> !IsQuitKey(frames[i])
    decreases |frames|
  {
    if |frames| > 0 {
      var init := frames[..|frames| - 1];
      assert forall i :: 0 <= i < |init| ==> init[i] == frames[i];
      RecogStopsAtFirstEsc(palette, eng, rows, cols, st, init);
    }
  }

  /**
   * The colour box is painted into the image itself, so a later double-click on the box
   * (off its label) samples the painted colour rather than the photograph: it reports the
   * match's own colour, and, when that colour's own lookup gives the same row, the very same match.
   */
  lemma ClickOnBoxSamplesOverlay(palette: seq<PaletteEntry>, rows: nat, cols: nat, st: RecogState, c: ColorInfo, glyphs: set<Point>, ev: MouseEvent)
    requires |palette| > 0 && IsGrid(st.img, rows, cols)
    requires IsDoubleClick(ev) && 0 <= ev.y < rows && 0 <= ev.x < cols
    requires InfoRect.Contains(ev.x, ev.y) && (ev.x, ev.y) !in glyphs
    ensures RecogMouse(palette, rows, cols, st.(img := DrawInfo(st.img, c, glyphs)), ev).current.value.rgb == c.rgb
    ensures RecognizeColor(palette, c.rgb) == Success(c) ==>
      RecogMouse(palette, rows, cols, st.(img := DrawInfo(st.img, c, glyphs)), ev).current == Some(c)
  {
    var painted := DrawInfo(st.img, c, glyphs);
    assert painted[ev.y][ev.x] == ToBgr(c.rgb);
  }

  /** The application object; `img` is painted on in place. */
  class RecogApp {
    const palette: seq<PaletteEntry>
    const engine: TextEngine
    const img: array2<Bgr>
    var clicked: bool
    var current: Option<ColorInfo>

    predicate Valid()
      reads this
    {
      |palette| > 0
    }

    function State(): RecogState
      reads this, img
    {
      RecogState(Grid(img), clicked, current)
    }

    /** `__init__` once the image is loaded and the palette read. */
    constructor(pixels: array2<Bgr>, palette: seq<PaletteEntry>, engine: TextEngine)
      requires |palette| > 0
      ensures Valid() && img == pixels && this.palette == palette && this.engine == engine
      ensures !clicked && current.None?
    {
      this.palette := palette;
      this.engine := engine;
      img := pixels;
      clicked := false;
      current := None;
    }

    /** `mouse_callback` for one event. */
    method MouseCallback(ev: MouseEvent)
      requires Valid()
      requires IsDoubleClick(ev) ==> 0 <= ev.y < img.Length0 && 0 <= ev.x < img.Length1
      modifies this
      ensures State() == RecogMouse(palette, img.Length0, img.Length1, old(State()), ev)
    {
      if ev.event == EventLButtonDblClk {
        clicked := true;
        var p := img[ev.y, ev.x];
        current := Some(RecognizeColor(palette, ToRgb(p)).value);
      }
    }

    /** `draw_color_info`: nothing without a match; otherwise the box, then its label, painted into `img`. */
    method DrawColorInfo()
      requires Valid()
      modifies img
      ensures current.None? ==> Grid(img) == old(Grid(img))
      ensures current.Some? ==> Grid(img) == DrawInfo(old(Grid(img)), current.value, InfoGlyphs(engine, current.value))
    {
      if current.None? {
        return;
      }
      var c := current.value;
      var glyphs := InfoGlyphs(engine, c);
      ghost var before := Grid(img);
      MapPixels(img, (x, y, p) => if InfoRect.Contains(x, y) then ToBgr(c.rgb) else p);
      MapPixels(img, (x, y, p) => if (x, y) in glyphs then TextColor(c.rgb) else p);
      GridEqual(Grid(img), DrawInfo(before, c, glyphs), img.Length0, img.Length1);
    }

    /** One `waitKey`: the frame's mouse events, in order. */
    method DeliverEvents(evs: seq<MouseEvent>)
      requires Valid() && ClicksInside(img.Length0, img.Length1, evs)
      modifies this
      ensures State() == RecogEvents(palette, img.Length0, img.Length1, old(State()), evs)
    {
      var j := 0;
      while j < |evs|
        invariant 0 <= j <= |evs|
        invariant ClicksInside(img.Length0, img.Length1, evs[..j])
        invariant State() == RecogEvents(palette, img.Length0, img.Length1, old(State()), evs[..j])
      {
        assert evs[..j + 1][..j] == evs[..j];
        MouseCallback(evs[j]);
        j := j + 1;
      }
      assert evs[..j] == evs;
    }

    /**
     * `run` over a script of frames: paint and clear the flag when it is set, show the image,
     * deliver the events, stop on ESC. Returns the number of frames that painted.
     */
    method Run(script: seq<FrameInput>) returns (draws: nat, framesRun: nat, quit: bool)
      requires Valid() && ScriptInside(img.Length0, img.Length1, script)
      modifies this, img
      ensures RecogRunSpec(palette, engine, img.Length0, img.Length1, old(State()), script) ==
        RecogRunResult(State(), draws, framesRun, quit)
    {
      ghost var st0 := State();
      draws, framesRun, quit := 0, 0, false;
      while framesRun < |script| && !quit
        invariant framesRun <= |script|
        invariant ScriptInside(img.Length0, img.Length1, script[..framesRun])
        invariant RecogRunSpec(palette, engine, img.Length0, img.Length1, st0, script[..framesRun]) ==
          RecogRunResult(State(), draws, framesRun, quit)
        decreases |script| - framesRun
      {
        var f := script[framesRun];
        RecogRunStep(palette, engine, img.Length0, img.Length1, st0, script, framesRun);
        if clicked {
          DrawColorInfo();
          clicked := false;
          draws := draws + 1;
        }
        DeliverEvents(f.events);
        framesRun, quit := framesRun + 1, IsQuitKey(f);
      }
      if quit {
        RecogQuitIsFinal(palette, engine, img.Length0, img.Length1, st0, script, framesRun);
      } else {
        assert script[..framesRun] == script;
      }
    }
  }

  /** A run that ESC has ended ignores the next frame. */
  lemma RecogQuitStays(palette: seq<PaletteEntry>, eng: TextEngine, rows: nat, cols: nat, st: RecogState, frames: seq<FrameInput>)
    requires |palette| > 0 && IsGrid(st.img, rows, cols) && ScriptInside(rows, cols, frames) && |frames| > 0
    requires ScriptInside(rows, cols, frames[..|frames| - 1])
    requires RecogRunSpec(palette, eng, rows, cols, st, frames[..|frames| - 1]).quit
    ensures RecogRunSpec(palette, eng, rows, cols, st, frames) == RecogRunSpec(palette, eng, rows, cols, st, frames[..|frames| - 1])
  {
  }

  /** Once ESC has ended the run, later frames change nothing. */
  lemma {:induction false} RecogQuitIsFinal(palette: seq<PaletteEntry>, eng: TextEngine, rows: nat, cols: nat, st: RecogState, frames: seq<FrameInput>, n: nat)
    requires |palette| > 0 && IsGrid(st.img, rows, cols) && ScriptInside(rows, cols, frames) && n <= |frames|
    requires RecogRunSpec(palette, eng, rows, cols, st, frames[..n]).quit
    ensures RecogRunSpec(palette, eng, rows, cols, st, frames) == RecogRunSpec(palette, eng, rows, cols, st, frames[..n])
    decreases |frames| - n
  {
    if n < |frames| {
      var m := |frames|;
      var init := frames[..m - 1];
      assert forall i :: 0 <= i < |init| ==> init[i] == frames[i];
      assert init[..n] == frames[..n];
      RecogQuitIsFinal(palette, eng, rows, cols, st, init, n);
      RecogQuitStays(palette, eng, rows, cols, st, frames);
    } else {
      assert frames[..n] == frames;
    }
  }
}
