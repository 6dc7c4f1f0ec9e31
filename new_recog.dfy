/**
 * The windowed version of the colour picker (`ColorRecognitionApp` of new_recog.py): the
 * image is fitted into an 800 x 600 canvas, shown through a colour-vision simulation, and
 * annotated with the current match and the mode. The frame a loop iteration shows and the
 * run of the whole loop are first specified as functions, then implemented by a class whose
 * methods rewrite the canvas in place.
 */
module NewRecog {
  import opened Wrappers
  import opened Color
  import opened Raster
  import opened Geometry
  import opened Matcher
  import opened Simulation
  import opened Text
  import opened Annotation
  import opened Interaction

  /** `canvas[y_off:y_off+h, x_off:x_off+w] = im`: inside the pasted region the image, elsewhere `under`. */
  function PastePixel(im: Image, xOff: int, yOff: int, x: int, y: int, under: Bgr): (p: Bgr)
    ensures 0 <= y - yOff < |im| && 0 <= x - xOff < |im[y - yOff]| ==> p == im[y - yOff][x - xOff]
    ensures !(0 <= y - yOff < |im| && 0 <= x - xOff < |im[y - yOff]|) ==> p == under
  {
    if 0 <= y - yOff < |im| && 0 <= x - xOff < |im[y - yOff]| then im[y - yOff][x - xOff] else under
  }

  /** The preview of the resized image under the mode's matrix. */
  function Preview(s: Session, m: Mode): (sim: Image)
    requires ValidSession(s)
    ensures IsGrid(sim, s.layout.newH, s.layout.newW)
  {
    SimulateImage(MatrixFor(m), s.resized)
  }

  /**
   * The callback's bounds test, made against the resized image's shape, accepts exactly
   * the window pixels the preview (of that same shape) is pasted onto.
   */
  lemma OnImageIsPastedRegion(s: Session, x: int, y: int)
    requires ValidSession(s)
    ensures OnImage(s.layout, x, y) <==>
      0 <= y - s.layout.yOff < |s.resized| && 0 <= x - s.layout.xOff < |s.resized[y - s.layout.yOff]|
  {
    var i := y - s.layout.yOff;
    if 0 <= i < |s.resized| {
      assert |s.resized[i]| == s.layout.newW;
    }
  }

  /** The mode label's background box on the fixed window. */
  function ModeLabelBox(eng: TextEngine, m: Mode): Rect {
    ModeBox(ModeOrigin(WindowHeight), eng.extents(ModeText(m)))
  }

  /** The mode label's glyphs. */
  function ModeLabelGlyphs(eng: TextEngine, m: Mode): set<Point> {
    eng.glyphs(ModeText(m), ModeOrigin(WindowHeight))
  }

  /** Whether a pixel is under the colour box or its label, when a colour is selected. */
  predicate UnderInfo(eng: TextEngine, st: UiState, x: int, y: int) {
    st.current.Some? && ((x, y) in InfoGlyphs(eng, st.current.value) || InfoRect.Contains(x, y))
  }

  /** Whether a pixel is under the mode label or its box. */
  predicate UnderModeLabel(eng: TextEngine, st: UiState, x: int, y: int) {
    (x, y) in ModeLabelGlyphs(eng, st.mode) || ModeLabelBox(eng, st.mode).Contains(x, y)
  }

  /**
   * One canvas pixel of a frame, layer by layer as the loop paints them: black, the
   * preview pasted at the offsets, the colour box and its label when a colour is
   * selected, then the mode label on its box.
   */
  function FramePixel(s: Session, eng: TextEngine, st: UiState, x: int, y: int): (p: Bgr)
    requires ValidSession(s)
    ensures (x, y) in ModeLabelGlyphs(eng, st.mode) ==> p == White
    ensures (x, y) !in ModeLabelGlyphs(eng, st.mode) && ModeLabelBox(eng, st.mode).Contains(x, y) ==> p == Black
    ensures !UnderModeLabel(eng, st, x, y) && st.current.Some? && (x, y) in InfoGlyphs(eng, st.current.value) ==>
      p == TextColor(st.current.value.rgb)
    ensures !UnderModeLabel(eng, st, x, y) && st.current.Some? && (x, y) !in InfoGlyphs(eng, st.current.value) && InfoRect.Contains(x, y) ==>
      p == ToBgr(st.current.value.rgb)
    ensures !UnderModeLabel(eng, st, x, y) && !UnderInfo(eng, st, x, y) ==>
      p == PastePixel(Preview(s, st.mode), s.layout.xOff, s.layout.yOff, x, y, Black)
  {
    var base := PastePixel(Preview(s, st.mode), s.layout.xOff, s.layout.yOff, x, y, Black);
    var info := if st.current.Some? then InfoPixel(st.current.value, InfoGlyphs(eng, st.current.value), x, y, base) else base;
    ModePixel(ModeLabelBox(eng, st.mode), ModeLabelGlyphs(eng, st.mode), x, y, info)
  }

  /** The whole frame shown for a state. */
  function FrameImage(s: Session, eng: TextEngine, st: UiState): (im: Image)
    requires ValidSession(s)
    ensures IsGrid(im, WindowHeight, WindowWidth)
  {
    seq(WindowHeight, y requires 0 <= y < WindowHeight =>
      seq(WindowWidth, x requires 0 <= x < WindowWidth => FramePixel(s, eng, st, x, y)))
  }

  /** Each pixel of the frame is the layered pixel of `FramePixel`. */
  lemma FrameImagePixels(s: Session, eng: TextEngine, st: UiState)
    requires ValidSession(s)
    ensures forall y, x :: 0 <= y < WindowHeight && 0 <= x < WindowWidth ==>
      FrameImage(s, eng, st)[y][x] == FramePixel(s, eng, st, x, y)
  {
  }

  /**
   * Away from the overlays a frame shows the preview: on the displayed image the simulated
   * pixel at the same place of the resized image, and black on the border around it.
   */
  lemma FrameShowsPreview(s: Session, eng: TextEngine, st: UiState, x: int, y: int)
    requires ValidSession(s)
    requires !UnderInfo(eng, st, x, y) && !UnderModeLabel(eng, st, x, y)
    ensures OnImage(s.layout, x, y) ==>
      FramePixel(s, eng, st, x, y) == Preview(s, st.mode)[y - s.layout.yOff][x - s.layout.xOff] &&
      FramePixel(s, eng, st, x, y) == TransformPixel(MatrixFor(st.mode), s.resized[y - s.layout.yOff][x - s.layout.xOff])
    ensures !OnImage(s.layout, x, y) ==> FramePixel(s, eng, st, x, y) == Black
  {
    var sim := Preview(s, st.mode);
    var base := PastePixel(sim, s.layout.xOff, s.layout.yOff, x, y, Black);
    assert FramePixel(s, eng, st, x, y) == base;
    if OnImage(s.layout, x, y) {
      var i, j := y - s.layout.yOff, x - s.layout.xOff;
      assert 0 <= i < |sim| && 0 <= j < |sim[i]|;
      assert base == sim[i][j];
    }
  }

  /**
   * When the rasteriser keeps the glyphs within the reported extents, the mode label and
   * its box cover exactly the box, and every pixel of it is white glyph or black
   * background, whatever the image or the colour box would have put there.
   */
  lemma ModeLabelHidesImage(s: Session, eng: TextEngine, st: UiState, x: int, y: int)
    requires ValidSession(s)
    requires DrawsWithin(eng, ModeText(st.mode), ModeOrigin(WindowHeight))
    ensures UnderModeLabel(eng, st, x, y) <==> ModeLabelBox(eng, st.mode).Contains(x, y)
    ensures ModeLabelBox(eng, st.mode).Contains(x, y) ==>
      FramePixel(s, eng, st, x, y) == (if (x, y) in ModeLabelGlyphs(eng, st.mode) then White else Black)
  {
    if (x, y) in ModeLabelGlyphs(eng, st.mode) {
      GlyphsInModeBox(eng, ModeText(st.mode), ModeOrigin(WindowHeight), x, y);
    }
  }

  /** The overlays cover whatever lies under them, so a selected colour is always on show. */
  lemma InfoBoxShowsSelection(s: Session, eng: TextEngine, st: UiState, x: int, y: int)
    requires ValidSession(s) && st.current.Some?
    requires InfoRect.Contains(x, y) && (x, y) !in InfoGlyphs(eng, st.current.value)
    requires !UnderModeLabel(eng, st, x, y)
    ensures ToRgb(FramePixel(s, eng, st, x, y)) == st.current.value.rgb
  {
  }

  /** What a run has produced: the state, the frames shown, the clipboard texts, and whether ESC ended it. */
  datatype RunResult = RunResult(state: UiState, shown: seq<Image>, clipboard: seq<string>, framesRun: nat, quit: bool)

  /** One loop iteration: show the frame, deliver the events, handle the key. */
  function FrameStep(s: Session, eng: TextEngine, r: RunResult, f: FrameInput): (n: RunResult)
    requires ValidSession(s)
    ensures n.framesRun == r.framesRun + 1 && n.shown == r.shown + [FrameImage(s, eng, r.state)]
    ensures n.quit <==> IsQuitKey(f)
    ensures n.state.current == ApplyEvents(s, r.state, f.events).current
    ensures ModeForKey(MaskKey(f.key)).Some? ==> n.state.mode == ModeForKey(MaskKey(f.key)).value
    ensures ModeForKey(MaskKey(f.key)).None? ==> n.state.mode == r.state.mode
    ensures MaskKey(f.key) == KeyCopy && ApplyEvents(s, r.state, f.events).current.Some? ==>
      n.clipboard == r.clipboard + [ClipboardText(ApplyEvents(s, r.state, f.events).current.value)]
    ensures !(MaskKey(f.key) == KeyCopy && ApplyEvents(s, r.state, f.events).current.Some?) ==> n.clipboard == r.clipboard
  {
    var o := OnKey(ApplyEvents(s, r.state, f.events), f.key);
    RunResult(o.state, r.shown + [FrameImage(s, eng, r.state)],
              r.clipboard + (if o.clipboard.Some? then [o.clipboard.value] else []),
              r.framesRun + 1, !o.keepRunning)
  }

  /** `run`: the loop over the frames of a script, until ESC or the end of the script. */
  function RunSpec(s: Session, eng: TextEngine, st: UiState, frames: seq<FrameInput>): (r: RunResult)
    requires ValidSession(s)
    ensures |r.shown| == r.framesRun <= |frames| && |r.clipboard| <= r.framesRun
    ensures !r.quit ==> r.framesRun == |frames|
    decreases |frames|
  {
    if |frames| == 0 then RunResult(st, [], [], 0, false)
    else
      var prev := RunSpec(s, eng, st, frames[..|frames| - 1]);
      if prev.quit then prev else FrameStep(s, eng, prev, frames[|frames| - 1])
  }

  /** A run that ESC has ended ignores the next frame. */
  lemma QuitStays(s: Session, eng: TextEngine, st: UiState, frames: seq<FrameInput>)
    requires ValidSession(s) && |frames| > 0
    requires RunSpec(s, eng, st, frames[..|frames| - 1]).quit
    ensures RunSpec(s, eng, st, frames) == RunSpec(s, eng, st, frames[..|frames| - 1])
  {
  }

  /** Once ESC has ended the run, later frames change nothing. */
  lemma {:induction false} QuitIsFinal(s: Session, eng: TextEngine, st: UiState, frames: seq<FrameInput>, n: nat)
    requires ValidSession(s) && n <= |frames|
    requires RunSpec(s, eng, st, frames[..n]).quit
    ensures RunSpec(s, eng, st, frames) == RunSpec(s, eng, st, frames[..n])
    decreases |frames| - n
  {
    if n < |frames| {
      var m := |frames|;
      var init := frames[..m - 1];
      assert init[..n] == frames[..n];
      QuitIsFinal(s, eng, st, init, n);
      QuitStays(s, eng, st, frames);
    } else {
      assert frames[..n] == frames;
    }
  }

  /**
   * The loop shows one frame per iteration and ends exactly at the first frame whose key is
   * ESC; without one it runs the whole script.
   */
  lemma {:induction false} RunStopsAtFirstEsc(s: Session, eng: TextEngine, st: UiState, frames: seq<FrameInput>)
    requires ValidSession(s)
    ensures |RunSpec(s, eng, st, frames).shown| == RunSpec(s, eng, st, frames).framesRun <= |frames|
    ensures RunSpec(s, eng, st, frames).quit ==>
      RunSpec(s, eng, st, frames).framesRun > 0 && IsQuitKey(frames[RunSpec(s, eng, st, frames).framesRun - 1])
    ensures forall i :: 0 <= i < RunSpec(s, eng, st, frames).framesRun - 1 ==> !IsQuitKey(frames[i])
    ensures !RunSpec(s, eng, st, frames).quit ==>
      RunSpec(s, eng, st, frames).framesRun == |frames| && forall i :: 0 <= i < |frames| ==> !IsQuitKey(frames[i])
    decreases |frames|
  {
    if |frames| > 0 {
      var m := |frames|;
      var init := frames[..m - 1];
      RunStopsAtFirstEsc(s, eng, st, init);
      assert forall i :: 0 <= i < m - 1 ==> init[i] == frames[i];
    }
  }

  /** Pressing 'n' returns the preview to the resized image itself, whatever mode was active. */
  lemma NormalKeyRestoresImage(s: Session, st: UiState, raw: int)
    requires ValidSession(s) && MaskKey(raw) == KeyNormal
    ensures OnKey(st, raw).state.mode == Normal
    ensures Preview(s, OnKey(st, raw).state.mode) == s.resized
  {
    ModeKeySelects(st, Normal, raw);
    NormalPreviewIsIdentity(s.resized);
  }

  /** The application object; `canvas` is rewritten in place every frame. */
  class App {
    const session: Session
    const engine: TextEngine
    var mode: Mode
    var current: Option<ColorInfo>
    var simulated: Image
    var canvas: array2<Bgr>

    predicate Valid()
      reads this
    {
      ValidSession(session)
    }

    /** Inside `run`: the preview matches the mode and the canvas has the window's size. */
    predicate Running()
      reads this
    {
      Valid() &&
      simulated == Preview(session, mode) &&
      canvas.Length0 == WindowHeight && canvas.Length1 == WindowWidth
    }

    function State(): UiState
      reads this
    {
      UiState(mode, current)
    }

    /**
     * `__init__` once the palette is read and the image loaded, with
     * `resize_image_to_fixed_window` done: `resized` is what `cv2.resize` returned.
     */
    constructor(img: Image, w: nat, h: nat, palette: seq<PaletteEntry>, resized: Image, engine: TextEngine)
      requires w > 0 && h > 0 && IsGrid(img, h, w) && |palette| > 0
      requires ResizeToFixedWindow(w, h).Success?
      requires IsGrid(resized, Fit(w, h).newH, Fit(w, h).newW)
      ensures Valid() && State() == UiState(Normal, None)
      ensures session == Session(img, w, h, palette, Fit(w, h), resized) && this.engine == engine
    {
      session := Session(img, w, h, palette, ResizeToFixedWindow(w, h).value, resized);
      this.engine := engine;
      mode := Normal;
      current := None;
      simulated := [];
      canvas := new Bgr[0, 0];
    }

    /** `mouse_callback` for one event. */
    method MouseCallback(ev: MouseEvent)
      requires Valid()
      modifies this
      ensures State() == OnMouse(session, old(State()), ev)
      ensures simulated == old(simulated) && canvas == old(canvas)
    {
      var l := session.layout;
      var imgX, imgY := ev.x - l.xOff, ev.y - l.yOff;
      if ev.event == EventLButtonDblClk {
        if 0 <= imgX < l.newW && 0 <= imgY < l.newH {
          ClickMapsIntoImage(session.w, session.h, ev.x, ev.y);
          var origX, origY := ToOriginal(l, imgX), ToOriginal(l, imgY);
          var p := session.img[origY][origX];
          assert p == SampledPixel(session, ev.x, ev.y);
          current := Some(RecognizeColor(session.palette, ToRgb(p)).value);
        }
      }
    }

    /** `apply_color_blindness_simulation`. */
    method ApplySimulation()
      requires Valid()
      modifies this`simulated
      ensures simulated == Preview(session, mode)
    {
      simulated := SimulateImage(MatrixFor(mode), session.resized);
    }

    /** `handle_key_press` once `waitKey` has returned `raw`. */
    method HandleKeyPress(raw: int) returns (keepRunning: bool, clipboard: Option<string>)
      requires Running()
      modifies this
      ensures Running() && canvas == old(canvas)
      ensures State() == OnKey(old(State()), raw).state
      ensures keepRunning == OnKey(old(State()), raw).keepRunning
      ensures clipboard == OnKey(old(State()), raw).clipboard
    {
      var key := MaskKey(raw);
      clipboard := None;
      if key == KeyCopy && current.Some? {
        clipboard := Some(ClipboardText(current.value));
      } else if ModeForKey(key).Some? {
        mode := ModeForKey(key).value;
        ApplySimulation();
      } else if key == KeyEsc {
        return false, None;
      }
      return true, clipboard;
    }

    /** The canvas reset to black and the preview pasted at the offsets. */
    method ComposeFrame()
      requires Running()
      modifies canvas
      ensures forall y, x :: 0 <= y < canvas.Length0 && 0 <= x < canvas.Length1 ==>
        canvas[y, x] == PastePixel(simulated, session.layout.xOff, session.layout.yOff, x, y, Black)
    {
      var sim, xOff, yOff := simulated, session.layout.xOff, session.layout.yOff;
      MapPixels(canvas, (x, y, p) => Black);
      MapPixels(canvas, (x, y, p) => PastePixel(sim, xOff, yOff, x, y, p));
    }

    /** `draw_color_info`: the colour box, then its label. */
    method DrawColorInfo()
      requires Running()
      modifies canvas
      ensures current.None? ==> forall y, x :: 0 <= y < canvas.Length0 && 0 <= x < canvas.Length1 ==>
        canvas[y, x] == old(canvas[y, x])
      ensures current.Some? ==> forall y, x :: 0 <= y < canvas.Length0 && 0 <= x < canvas.Length1 ==>
        canvas[y, x] == InfoPixel(current.value, InfoGlyphs(engine, current.value), x, y, old(canvas[y, x]))
    {
      if current.None? {
        return;
      }
      var c := current.value;
      var glyphs := InfoGlyphs(engine, c);
      MapPixels(canvas, (x, y, p) => if InfoRect.Contains(x, y) then ToBgr(c.rgb) else p);
      MapPixels(canvas, (x, y, p) => if (x, y) in glyphs then TextColor(c.rgb) else p);
    }

    /** `draw_simulation_mode`: the black box sized from the text's extents, then the white text. */
    method DrawSimulationMode()
      requires Running()
      modifies canvas
      ensures forall y, x :: 0 <= y < canvas.Length0 && 0 <= x < canvas.Length1 ==>
        canvas[y, x] == ModePixel(ModeLabelBox(engine, mode), ModeLabelGlyphs(engine, mode), x, y, old(canvas[y, x]))
    {
      var box, glyphs := ModeLabelBox(engine, mode), ModeLabelGlyphs(engine, mode);
      MapPixels(canvas, (x, y, p) => if box.Contains(x, y) then Black else p);
      MapPixels(canvas, (x, y, p) => if (x, y) in glyphs then White else p);
    }

    /** The drawing part of one loop iteration. */
    method RenderFrame()
      requires Running()
      modifies canvas
      ensures Grid(canvas) == FrameImage(session, engine, State())
    {
      ComposeFrame();
      if current.Some? {
        DrawColorInfo();
      }
      DrawSimulationMode();
      FrameImagePixels(session, engine, State());
      GridEqual(Grid(canvas), FrameImage(session, engine, State()), WindowHeight, WindowWidth);
    }

    /** One `waitKey`: the frame's mouse events, in order. */
    method DeliverEvents(evs: seq<MouseEvent>)
      requires Running()
      modifies this
      ensures Running() && canvas == old(canvas)
      ensures State() == ApplyEvents(session, old(State()), evs)
    {
      var j := 0;
      while j < |evs|
        invariant 0 <= j <= |evs|
        invariant Running() && canvas == old(canvas)
        invariant State() == ApplyEvents(session, old(State()), evs[..j])
      {
        assert evs[..j + 1][..j] == evs[..j];
        MouseCallback(evs[j]);
        j := j + 1;
      }
      assert evs[..j] == evs;
    }

    /**
     * `run` over a script of frames: a fresh black canvas, the initial preview, then one
     * iteration per frame until ESC. Returns the frames shown and the clipboard texts.
     */
    method Run(script: seq<FrameInput>) returns (shown: seq<Image>, clipboard: seq<string>, framesRun: nat, quit: bool)
      requires Valid()
      modifies this
      ensures Running() && fresh(canvas)
      ensures RunSpec(session, engine, old(State()), script) == RunResult(State(), shown, clipboard, framesRun, quit)
    {
      canvas := new Bgr[WindowHeight, WindowWidth]((y, x) => Black);
      ApplySimulation();
      ghost var st0 := State();
      shown, clipboard, framesRun, quit := [], [], 0, false;
      while framesRun < |script| && !quit
        invariant framesRun <= |script|
        invariant Running() && fresh(canvas)
        invariant RunSpec(session, engine, st0, script[..framesRun]) == RunResult(State(), shown, clipboard, framesRun, quit)
        decreases |script| - framesRun
      {
        var f := script[framesRun];
        assert script[..framesRun + 1][..framesRun] == script[..framesRun];
        RenderFrame();
        shown := shown + [Grid(canvas)];
        DeliverEvents(f.events);
        var keep, clip := HandleKeyPress(f.key);
        if clip.Some? {
          clipboard := clipboard + [clip.value];
        }
        framesRun, quit := framesRun + 1, !keep;
      }
      if quit {
        QuitIsFinal(session, engine, st0, script, framesRun);
      } else {
        assert script[..framesRun] == script;
      }
    }
  }
}
