/**
 * Input handling of the windowed version: the key code after `& 0xFF`, the key-to-mode
 * table, and the transitions that a key press and a mouse event make on the picker's
 * state (the simulation mode and the current match).
 */
module Interaction {
  import opened Wrappers
  import opened Color
  import opened Raster
  import opened Geometry
  import opened Matcher
  import opened Simulation
  import opened Text

  /** `cv2.EVENT_LBUTTONDBLCLK`. */
  const EventLButtonDblClk: int := 7

  /** A mouse event as the callback receives it: the event code and the window position. */
  datatype MouseEvent = MouseEvent(event: int, x: int, y: int)

  const KeyEsc: int := 27
  const KeyCopy: int := 'c' as int
  const KeyNormal: int := 'n' as int
  const KeyProtanopia: int := 'p' as int
  const KeyDeuteranopia: int := 'd' as int
  const KeyTritanopia: int := 't' as int

  /**
   * `key & 0xFF` on a Python integer: the low eight bits, so `waitKey`'s -1 for "no key"
   * becomes 255.
   */
  function MaskKey(raw: int): (k: int)
    ensures 0 <= k < 256
    ensures (raw - k) % 256 == 0
  {
    raw % 256
  }

  /** The low eight bits are the only ones kept: the mask is the unique such value. */
  lemma MaskKeyUnique(raw: int, k: int)
    requires 0 <= k < 256 && (raw - k) % 256 == 0
    ensures MaskKey(raw) == k
  {
    var q := (raw - k) / 256;
    assert raw == 256 * q + k;
  }

  lemma NoKeyMasksTo255()
    ensures MaskKey(-1) == 255
  {
    MaskKeyUnique(-1, 255);
  }

  /** The key that selects each mode. */
  function KeyForMode(m: Mode): int {
    match m
    case Normal => KeyNormal
    case Protanopia => KeyProtanopia
    case Deuteranopia => KeyDeuteranopia
    case Tritanopia => KeyTritanopia
  }

  /** The `elif` branches for 'n', 'p', 'd' and 't': the mode a key selects, if any. */
  function ModeForKey(k: int): (r: Option<Mode>)
    ensures forall m :: r == Some(m) <==> k == KeyForMode(m)
  {
    if k == KeyNormal then Some(Normal)
    else if k == KeyProtanopia then Some(Protanopia)
    else if k == KeyDeuteranopia then Some(Deuteranopia)
    else if k == KeyTritanopia then Some(Tritanopia)
    else None
  }

  /** Every mode has its key, and the key gives the mode back. */
  lemma {:induction false} ModeKeyRoundTrip(m: Mode)
    ensures ModeForKey(KeyForMode(m)) == Some(m)
    ensures KeyForMode(m) != KeyCopy && KeyForMode(m) != KeyEsc
  {
    var r := ModeForKey(KeyForMode(m));
    assert r == Some(m) <==> KeyForMode(m) == KeyForMode(m);
  }

  /** One iteration of a main loop: the mouse events it delivers, then the key `waitKey` returns. */
  datatype FrameInput = FrameInput(events: seq<MouseEvent>, key: int)

  /** Whether the key of a frame is ESC. */
  predicate IsQuitKey(f: FrameInput) {
    MaskKey(f.key) == KeyEsc
  }

  /** What the windowed version keeps between events. */
  datatype UiState = UiState(mode: Mode, current: Option<ColorInfo>)

  /**
   * The effect of one key press: the new state, whether the loop goes on, the text put on
   * the clipboard (if any), and whether the preview is recomputed.
   */
  datatype KeyOutcome = KeyOutcome(state: UiState, keepRunning: bool, clipboard: Option<string>, resimulate: bool)

  /** `handle_key_press` once `waitKey` has returned `raw`. */
  function OnKey(st: UiState, raw: int): (o: KeyOutcome)
    ensures o.keepRunning <==> MaskKey(raw) != KeyEsc
    ensures o.state.current == st.current
    ensures o.resimulate <==> ModeForKey(MaskKey(raw)).Some?
    ensures o.resimulate ==> o.state.mode == ModeForKey(MaskKey(raw)).value
    ensures !o.resimulate ==> o.state == st
    ensures o.clipboard.Some? <==> MaskKey(raw) == KeyCopy && st.current.Some?
    ensures o.clipboard.Some? ==> o.clipboard.value == ClipboardText(st.current.value)
  {
    var k := MaskKey(raw);
    if k == KeyCopy && st.current.Some? then
      KeyOutcome(st, true, Some(ClipboardText(st.current.value)), false)
    else if ModeForKey(k).Some? then
      KeyOutcome(st.(mode := ModeForKey(k).value), true, None, true)
    else if k == KeyEsc then
      KeyOutcome(st, false, None, false)
    else
      KeyOutcome(st, true, None, false)
  }

  /** A mode key selects its mode whatever the state, and changes nothing else. */
  lemma ModeKeySelects(st: UiState, m: Mode, raw: int)
    requires MaskKey(raw) == KeyForMode(m)
    ensures OnKey(st, raw) == KeyOutcome(UiState(m, st.current), true, None, true)
  {
    ModeKeyRoundTrip(m);
  }

  /**
   * Everything a picker session holds fixed: the loaded image and its size, the palette,
   * the layout computed for the window and the resized copy of the image.
   */
  datatype Session = Session(img: Image, w: nat, h: nat, palette: seq<PaletteEntry>, layout: Layout, resized: Image)

  /** A session as the program sets one up: a loaded image, a palette and a non-empty resized copy. */
  predicate ValidSession(s: Session) {
    s.w > 0 && s.h > 0 && IsGrid(s.img, s.h, s.w) &&
    |s.palette| > 0 &&
    ResizeToFixedWindow(s.w, s.h) == Success(s.layout) &&
    IsGrid(s.resized, s.layout.newH, s.layout.newW)
  }

  /** The original pixel a click on the displayed image samples. */
  function SampledPixel(s: Session, x: int, y: int): (p: Bgr)
    requires ValidSession(s) && OnImage(s.layout, x, y)
    ensures ToOriginal(s.layout, x - s.layout.xOff) < s.w && ToOriginal(s.layout, y - s.layout.yOff) < s.h
    ensures p == s.img[ToOriginal(s.layout, y - s.layout.yOff)][ToOriginal(s.layout, x - s.layout.xOff)]
  {
    ClickMapsIntoImage(s.w, s.h, x, y);
    s.img[ToOriginal(s.layout, y - s.layout.yOff)][ToOriginal(s.layout, x - s.layout.xOff)]
  }

  /**
   * `mouse_callback`: a double-click on the displayed image looks up the original pixel
   * under it, in red, green, blue order; any other event, or a click on the border around
   * the image, changes nothing.
   */
  function OnMouse(s: Session, st: UiState, ev: MouseEvent): (r: UiState)
    requires ValidSession(s)
    ensures !(ev.event == EventLButtonDblClk && OnImage(s.layout, ev.x, ev.y)) ==> r == st
    ensures ev.event == EventLButtonDblClk && OnImage(s.layout, ev.x, ev.y) ==>
      r.mode == st.mode && r.current.Some? &&
      r.current.value.rgb == ToRgb(SampledPixel(s, ev.x, ev.y)) &&
      Success(r.current.value) == RecognizeColor(s.palette, ToRgb(SampledPixel(s, ev.x, ev.y)))
  {
    if ev.event == EventLButtonDblClk && OnImage(s.layout, ev.x, ev.y) then
      st.(current := Some(RecognizeColor(s.palette, ToRgb(SampledPixel(s, ev.x, ev.y))).value))
    else
      st
  }

  /** Whether the callback acts on an event: a double-click on the displayed image. */
  predicate Accepted(s: Session, ev: MouseEvent) {
    ev.event == EventLButtonDblClk && OnImage(s.layout, ev.x, ev.y)
  }

  /** The events delivered during one `waitKey`, in order. */
  function ApplyEvents(s: Session, st: UiState, evs: seq<MouseEvent>): (r: UiState)
    requires ValidSession(s)
    ensures r.mode == st.mode
    ensures (forall i :: 0 <= i < |evs| ==> !Accepted(s, evs[i])) ==> r == st
    decreases |evs|
  {
    if |evs| == 0 then st
    else OnMouse(s, ApplyEvents(s, st, evs[..|evs| - 1]), evs[|evs| - 1])
  }

  /** The match shown after a batch of events is the one made by its last accepted double-click. */
  lemma {:induction false} LastClickWins(s: Session, st: UiState, evs: seq<MouseEvent>, ev: MouseEvent)
    requires ValidSession(s)
    requires ev.event == EventLButtonDblClk && OnImage(s.layout, ev.x, ev.y)
    ensures ApplyEvents(s, st, evs + [ev]).current == Some(RecognizeColor(s.palette, ToRgb(SampledPixel(s, ev.x, ev.y))).value)
  {
    assert (evs + [ev])[..|evs|] == evs;
  }

  /**
   * The match shown after a batch of events is the one made by its last accepted
   * double-click, whatever events that the callback ignores come after it.
   */
  lemma {:induction false} LastAcceptedWins(s: Session, st: UiState, evs: seq<MouseEvent>, ev: MouseEvent, rest: seq<MouseEvent>)
    requires ValidSession(s) && Accepted(s, ev)
    requires forall i :: 0 <= i < |rest| ==> !Accepted(s, rest[i])
    ensures ApplyEvents(s, st, evs + [ev] + rest).current == Some(RecognizeColor(s.palette, ToRgb(SampledPixel(s, ev.x, ev.y))).value)
    decreases |rest|
  {
    if |rest| == 0 {
      assert evs + [ev] + rest == evs + [ev];
      LastClickWins(s, st, evs, ev);
    } else {
      var init := rest[..|rest| - 1];
      var all := evs + [ev] + rest;
      assert all[..|all| - 1] == evs + [ev] + init;
      assert all[|all| - 1] == rest[|rest| - 1];
      LastAcceptedWins(s, st, evs, ev, init);
    }
  }
}
