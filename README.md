# Colour picker model

A Dafny model of the two versions of an OpenCV colour picker. In both versions the user
double-clicks a pixel of an image. The program finds the nearest named colour in a CSV palette
and shows a coloured box with the colour's name, its `(r, g, b)` tuple and its hex code.

- `recog.py` shows the image at its own size. It paints the box into the image itself on the
  frame after a click.
- `new_recog.py` fits the image into a fixed 800 x 600 window and centres it. It shows the image
  through one of four colour-vision matrices (Normal, Protanopia, Deuteranopia, Tritanopia) and
  draws a mode label. It copies the match to the clipboard on 'c'.

The model is split into modules that follow the program:

- `Color`: pixels in OpenCV's blue-first order, colours in red-first order, palette rows and the
  `ColorInfo` result.
- `Matcher`: `recognize_color`, the first nearest row by squared RGB distance, which orders rows
  as the Euclidean distance does.
- `Text`: the decimal printing of the `(r, g, b)` tuple, the label text and the clipboard text.
- `Geometry`: the fit of the image into the window, with the scale kept as an exact ratio. Also
  the mapping of a click back to the original pixel.
- `Simulation`: the mode-to-matrix table with its Normal fallback, and the per-pixel transform
  in exact real arithmetic.
- `Annotation`: the contrast rule, the colour box, and the mode label's box built from the text
  extents.
- `Interaction`: the raw key code masked with `0xFF`, the key and mouse transitions of the
  windowed version, and the input of one loop iteration.
- `NewRecog`: the frame each iteration shows and the whole loop as pure functions. The class
  `App` implements them by rewriting the canvas in place. `App.Run` is proved equal to the pure
  run.
- `Recog`: the `clicked` flag protocol and the in-place painting of `recog.py`. It has a class
  `RecogApp` whose `Run` is proved equal to the pure run.
- `Raster` and `Wrappers`: image values, rectangles, the in-place pixel rewrite used by every
  drawing call, and `Option`/`Result`.

Inputs that the program gets from libraries are parameters of the model:

- the palette rows that `pd.read_csv` produces;
- the decoded image;
- the image that `cv2.resize` returns;
- what the text rasteriser covers (the glyph pixels and the text extents);
- the mouse events and key codes that `waitKey` delivers, one `FrameInput` per loop iteration.

## Model

| member | source | states |
|---|---|---|
| Raster.MapPixels | new_recog.py:236 | An in-place buffer rewrite, as each drawing call does: every pixel (x, y) becomes f(x, y, old pixel). |
| Color.ToBgr | new_recog.py:143 | The reversed tuple `rgb[::-1]`, read back in red, green, blue order, is the colour itself. |
| Color.SqDist | new_recog.py:113 | The squared distance is a natural number that is zero exactly when the two colours are equal. |
| Matcher.ArgMin | new_recog.py:113-114 | `np.argmin` returns a row whose distance to the query is at most every row's distance. Every earlier row is strictly farther, so ties go to the lowest index. |
| Matcher.RecognizeColor | new_recog.py:107-120 | An empty palette gives the error. Otherwise the result carries the query colour itself, not the row's. Its name and hex both come from one first-nearest row. |
| Matcher.FirstNearestUnique | new_recog.py:114 | Only one row can be the first nearest, so the name and hex are determined by the query. |
| Matcher.ExactColourFindsFirstEqualRow | new_recog.py:113-114 | When the query equals some row's colour, the match is the first row with exactly that colour, and no earlier row has it. |
| Matcher.NoEarlierRowAsNear | recog.py:41-42 | Any row at least as near as the chosen one has the same distance and does not come before it. |
| Matcher.RedBeatsLime | recog.py:31-48 | A palette example: the query (250, 10, 10) is named "Red", not "Lime". |
| Text.NatToString | new_recog.py:147 | The decimal text of a channel is a non-empty string of digits without a leading zero. |
| Text.NatToStringRoundTrip | new_recog.py:147 | Reading the printed digits back gives the number. |
| Text.NatToStringInjective | new_recog.py:147 | Different numbers print differently. |
| Text.TupleText | new_recog.py:147 | The printed tuple `str((r, g, b))` is 9 to 15 characters long and is opened and closed by parentheses. |
| Text.TupleTextPrefix | new_recog.py:147 | The printed tuple `(r, g, b)` followed by any text determines the colour and the text after it. |
| Text.TupleTextInjective | new_recog.py:147 | Different colours print as different tuples. |
| Text.InfoText | new_recog.py:146-148 | The label starts with the colour's name. Its length is that of the name, the tuple and the hex code plus the ten characters of " RGB=" and " HEX=". |
| Text.ClipboardText | new_recog.py:199 | The clipboard text starts with "Name: " and the colour's name. Its length is that of the name, the tuple and the hex code plus the twenty separator characters. |
| Text.InfoTextDetermines | new_recog.py:146-148 | For a given name, the label `"{name} RGB={rgb} HEX={hex}"` determines the colour and the hex code. |
| Text.ClipboardTextDetermines | new_recog.py:199 | For a given name, the clipboard text `"Name: …, RGB: …, HEX: …"` determines the colour and the hex code. |
| Geometry.Fit | new_recog.py:92-105 | The scale is min(800/w, 600/h), taken exactly. Each side is the integer part of side times scale. The image fits the window and fills it in one direction. The offsets centre it, with an odd spare pixel going right or down. |
| Geometry.ResizeToFixedWindow | new_recog.py:90-105 | The layout is `Fit`, with both sides positive. It fails, as `cv2.resize` does on a zero side, exactly when the image is more than 800 times wider than tall or more than 600 times taller than wide. |
| Geometry.OnImage | new_recog.py:125-129 | The bounds check accepts exactly the pixels of the rectangle the resized image occupies in the window. |
| Geometry.ToOriginal | new_recog.py:131-132 | `int(d / scale)` is the original coordinate o with d / scale in [o, o + 1), so d lies in o's scaled footprint. |
| Geometry.ClickMapsIntoImage | new_recog.py:125-133 | A click that passes the bounds check maps, by `int(d / scale)`, to a pixel inside the original image. That pixel's footprint under the scale contains the click. |
| Geometry.FittingImagesAreEnlarged | new_recog.py:97 | The scale is not capped at 1. An image that fits the window already is enlarged, unless it touches a window side, and its resized sides are at least its own. |
| Geometry.QuarterSizeImage | new_recog.py:95-105 | A 400 x 300 image is doubled to fill the window with no offset, and display coordinates 100 and 50 map back to 50 and 25. |
| Simulation.MatrixFor | new_recog.py:186 | The table lookup with the Normal fallback finds each mode's own matrix. Every matrix has coefficients in [0, 1] and rows that sum to 1. |
| Simulation.TableStochastic | new_recog.py:17-38 | Every matrix of the table has coefficients in [0, 1] and rows that sum to 1. |
| Simulation.Channel | new_recog.py:189-192 | One output channel: a weighted sum at or below 0 gives 0, and one at or above 1 gives 255. In between, the channel is the integer part of the sum times 255. |
| Simulation.StochasticNeedsNoClip | new_recog.py:189-191 | With such a row the weighted sum of normalised channels already lies in [0, 1], so `np.clip` changes nothing. |
| Simulation.TransformStored | new_recog.py:189-190 | As written: the stored pixel goes into the matrix blue first. The result equals the corrected transform of the pixel with blue and red exchanged, exchanged back. |
| Simulation.TransformPixel | new_recog.py:189-192 | Corrected transform: the stored pixel, read red first, is the matrix applied to the source pixel in red, green, blue order. |
| Simulation.SimulateImage | new_recog.py:189-192 | The preview has the resized image's shape, and every pixel is the corrected `TransformPixel` of the resized pixel. |
| Simulation.NormalPixelUnchanged | new_recog.py:18-22 | The identity matrix leaves a pixel unchanged, in either channel order. |
| Simulation.NormalMatrixKeepsPixel | new_recog.py:186 | The matrix the table gives for Normal leaves every pixel as it is. |
| Simulation.NormalPreviewIsIdentity | new_recog.py:186-192 | In Normal mode the preview equals the resized image. |
| Simulation.FixedPixelsFixedImage | new_recog.py:190 | A matrix that fixes every pixel fixes every image. |
| Simulation.GreyIsKept | new_recog.py:17-38 | Under every table matrix, in either channel order, a grey pixel comes out unchanged. |
| Simulation.StoredOrderMisreadsPureRed | new_recog.py:190 | As written, Protanopia turns the stored pure red (0, 0, 255) into (0, 0, 193). The matrix read red first gives (0, 142, 144). The two differ. |
| Simulation.WrittenOrderMirrorsMatrix | new_recog.py:189-190 | The transform as written equals the corrected transform under the mirrored matrix, whose rows and coefficients are both reversed. |
| Simulation.MirrorSymmetricUnaffected | new_recog.py:189-190 | A matrix that mirroring leaves unchanged gives the same result in either channel order. |
| Simulation.ProtanopiaNotMirrored | new_recog.py:18-27 | The Normal matrix is mirror-symmetric, so the channel order does not matter for it. The Protanopia matrix is not. |
| Annotation.TextColor | new_recog.py:151-152 | The label is black exactly when r+g+b ≥ 600, and white exactly otherwise. |
| Annotation.TextContrasts | recog.py:72-73 | Black text only falls on colours with every channel ≥ 90, and white text only on colours with some channel < 200. The text colour never equals the box colour. |
| Annotation.InfoPixel | new_recog.py:142-156 | Glyph pixels take the contrast colour. Other pixels of the box (20,20)-(750,60) take the colour in stored order, which reads back as the match's colour. Everything else is untouched. |
| Annotation.ModeBox | new_recog.py:173-178 | The box starts at the text origin and spans the text's width. It runs from height plus baseline above the origin to baseline below it. |
| Annotation.ModeText | new_recog.py:161 | The label is "Mode: " followed by the mode's name. |
| Annotation.ModeTextInjective | new_recog.py:161 | Two modes are labelled alike exactly when they are the same mode. |
| Annotation.GlyphsInModeBox | new_recog.py:173-181 | When the rasteriser keeps a string's glyphs within the extents it reports, every glyph of the text lies in the background box. |
| Annotation.ModePixel | new_recog.py:176-181 | Glyph pixels are white, other pixels of the box are black, and everything else is untouched. |
| Interaction.MaskKey | new_recog.py:196 | `key & 0xFF` lies in [0, 256) and differs from the raw code by a multiple of 256. |
| Interaction.MaskKeyUnique | new_recog.py:196 | This is the only such value. |
| Interaction.NoKeyMasksTo255 | new_recog.py:196 | `waitKey`'s -1 for "no key" masks to 255. |
| Interaction.ModeForKey | new_recog.py:202-217 | A key selects mode m exactly when it is m's key ('n', 'p', 'd', 't'). |
| Interaction.ModeKeyRoundTrip | new_recog.py:202-217 | Every mode's key gives that mode back, and no mode key is 'c' or ESC. |
| Interaction.OnKey | new_recog.py:194-221 | The loop goes on exactly unless the key is ESC. The match never changes. A mode key sets its mode and recomputes the preview; any other key leaves the state unchanged. The clipboard gets the copy text exactly when the key is 'c' and a colour is selected. |
| Interaction.ModeKeySelects | new_recog.py:202-217 | A mode key selects its mode from any state, with no clipboard text. |
| Interaction.SampledPixel | new_recog.py:131-133 | The sampled pixel is `img[int(y'/scale)][int(x'/scale)]`, which lies in the original image. |
| Interaction.OnMouse | new_recog.py:122-134 | Only a double-click on the displayed image changes the state. It keeps the mode and stores the lookup of the sampled pixel in red-first order, whose colour is that pixel. |
| Interaction.ApplyEvents | new_recog.py:252 | The events of a frame never change the mode. A batch without a double-click on the displayed image changes nothing. |
| Interaction.LastClickWins | new_recog.py:128-134 | After a batch that ends with an accepted double-click, the match is the lookup of the pixel under that click. |
| Interaction.LastAcceptedWins | new_recog.py:128-134 | After a batch, the match is the one made by its last accepted double-click, whatever ignored events follow it. |
| NewRecog.PastePixel | new_recog.py:239-240 | Inside the pasted region a canvas pixel is the image pixel at the same place less the offsets. Outside it the canvas keeps what was under it. |
| NewRecog.Preview | new_recog.py:183-192 | The preview has the resized image's shape. |
| NewRecog.FrameImage | new_recog.py:226 | The frame has the window's 600 x 800 shape. |
| NewRecog.OnImageIsPastedRegion | new_recog.py:129 | The callback's bounds test, made against the resized image's shape, accepts exactly the window pixels the preview is pasted onto. |
| NewRecog.FramePixel | new_recog.py:234-247 | The layers in painting order: mode-label glyphs are white and the rest of the label box is black. Off the mode label, the colour label's glyphs take the contrast colour and the rest of the colour box takes the match's colour. Everywhere else the pixel is the pasted preview on black. |
| NewRecog.FrameShowsPreview | new_recog.py:236-240 | Away from the overlays, a pixel on the displayed image is the simulated pixel of the resized image at the same place. Pixels in the border around the image are black. |
| NewRecog.ModeLabelHidesImage | new_recog.py:173-181 | When the rasteriser keeps the glyphs within their extents, the mode label covers exactly its box. Every pixel of the box is a white glyph or black background, whatever lies under it. |
| NewRecog.InfoBoxShowsSelection | new_recog.py:142-143 | When a colour is selected, any box pixel off its label and off the mode label shows that colour. |
| NewRecog.FrameStep | new_recog.py:234-253 | One iteration shows the frame of the state at its start, then delivers the events, then handles the key. The match is the one the events leave. A mode key sets the mode and other keys keep it. The clipboard grows by the copy text exactly on 'c' with a match. The run stops exactly on ESC. |
| NewRecog.RunSpec | new_recog.py:234-253 | One frame is shown per iteration, and at most one clipboard text is produced per iteration. No more iterations run than the script has, and all of them run unless ESC ended the run. |
| NewRecog.QuitIsFinal | new_recog.py:252-253 | Once ESC has ended the run, later frames change nothing. |
| NewRecog.RunStopsAtFirstEsc | new_recog.py:234-253 | One frame is shown per iteration. The loop ends exactly at the first frame whose key is ESC, or runs the whole script if there is none. |
| NewRecog.NormalKeyRestoresImage | new_recog.py:202-205 | After 'n' the mode is Normal, and the preview is the resized image itself, whatever mode was active. |
| NewRecog.App.constructor | new_recog.py:41-69 | The session holds the image, the palette, the layout `Fit` computes and the resized image. The mode starts as Normal with no match. |
| NewRecog.App.MouseCallback | new_recog.py:122-134 | The state after the callback is `OnMouse` of the state before. The preview and the canvas are untouched. |
| NewRecog.App.ApplySimulation | new_recog.py:183-192 | The stored preview is the resized image under the current mode's matrix. |
| NewRecog.App.HandleKeyPress | new_recog.py:194-221 | The new state, the loop flag and the clipboard text are those of `OnKey`. The preview keeps matching the mode. |
| NewRecog.App.ComposeFrame | new_recog.py:236-240 | Every canvas pixel is the preview pixel inside the pasted region and black elsewhere. |
| NewRecog.App.DrawColorInfo | new_recog.py:136-156 | Without a match the canvas is unchanged. With one, every canvas pixel becomes the `InfoPixel` over its old value. |
| NewRecog.App.DrawSimulationMode | new_recog.py:158-181 | Every canvas pixel becomes the `ModePixel` over its old value, with the box taken from the text's extents. |
| NewRecog.App.RenderFrame | new_recog.py:236-247 | The canvas equals the frame of the current state. |
| NewRecog.App.DeliverEvents | new_recog.py:252 | The state after a frame's events is `ApplyEvents` of the state before. |
| NewRecog.App.Run | new_recog.py:223-255 | The frames shown, the clipboard texts, the final state and the ESC flag equal the pure run over the script. |
| Recog.RecogMouse | recog.py:50-55 | A double-click sets the flag and stores the lookup of `img[y][x]` in red-first order. Any other event changes nothing. |
| Recog.RecogEvents | recog.py:50-55 | After a frame's events, the flag is set exactly when it was already set or a double-click came. The image is unchanged. A match exists if one did before or a double-click came. Without a double-click nothing changes. |
| Recog.RecogLastClickWins | recog.py:50-55 | The match after a frame's events is the lookup of the pixel under its last double-click, whatever events follow it. |
| Recog.DrawInfo | recog.py:57-77 | The image keeps its shape, and every pixel becomes the `InfoPixel` over its old value. |
| Recog.PaintIfClicked | recog.py:85-87 | The flag is cleared and the match kept. With the flag and a match, the image becomes `DrawInfo` of it for that match; otherwise it is unchanged. |
| Recog.RecogStep | recog.py:84-93 | One iteration paints exactly when the flag was set at its start. With the flag and a match, the image becomes `DrawInfo` of it; otherwise it is untouched. The flag is set at its end exactly when the frame had a double-click. The match changes only through a double-click, and exists after one. The run stops exactly on ESC. |
| Recog.RecogRunSpec | recog.py:84-93 | Paintings never outnumber the iterations, and no more iterations run than the script has. All of them run unless ESC ended the run. |
| Recog.PaintsOncePerClick | recog.py:85-87 | Paintings plus a pending flag equal the initial flag plus the frames that had a double-click: one paint per clicked frame. |
| Recog.AtMostOnePaintPerClick | recog.py:85-87 | Paintings never outnumber the initial flag plus the frames with a double-click. |
| Recog.RecogStopsAtFirstEsc | recog.py:92-93 | The loop ends exactly at the first frame whose key is ESC, or runs the whole script if there is none. |
| Recog.RecogQuitIsFinal | recog.py:92-93 | Once ESC has ended the run, later frames change nothing. |
| Recog.ClickOnBoxSamplesOverlay | recog.py:54-64 | Once the box is painted into the image, a double-click on it (off the label) reports the painted colour, not the photograph's. When that colour's own lookup gives the same row, it reports the same match. |
| Recog.RecogApp.constructor | recog.py:14-29 | The object holds the loaded image buffer and the palette. The flag starts cleared with no match. |
| Recog.RecogApp.MouseCallback | recog.py:50-55 | The state after the callback is `RecogMouse` of the state before. |
| Recog.RecogApp.DrawColorInfo | recog.py:57-77 | The image becomes `DrawInfo` of the old image for the current match, or stays unchanged without a match. |
| Recog.RecogApp.DeliverEvents | recog.py:92 | The state after a frame's events is `RecogEvents` of the state before. |
| Recog.RecogApp.Run | recog.py:79-95 | The image, flag, match, paint count, frame count and ESC flag equal the pure run over the script. |

## Left out

- Palette loading with `pd.read_csv` is a library call. The palette is a given sequence of rows.
- An empty palette makes `np.argmin` raise; `Matcher.RecognizeColor` models this as a `Failure`,
  and both application classes require a non-empty palette.
- Image decoding (`cv2.imread`), the file dialog, message boxes and Tkinter are I/O. They are not
  modelled, and a loaded image is a parameter.
- `cv2.resize` with `INTER_AREA` is not modelled: the resized image is a parameter of the right
  shape.
- `cv2.putText` and `cv2.getTextSize` are not modelled. The rasteriser is a parameter that gives
  the covered pixels and the extents of a string. Anti-aliased edges are modelled as solid
  glyph pixels.
- Windows, `cv2.imshow` and `waitKey` are not modelled: the events and key codes of each loop
  iteration are inputs. The modelled loops also end when the script of iterations runs out.
- `pyperclip.copy` and `print` are not modelled: the clipboard text is an output.
- Geometry.Fit: the scale is an exact ratio rather than a Python float, so a float rounding
  `int(w * scale)` down by one is not captured.
- Geometry.ClickMapsIntoImage: it holds in exact arithmetic only. Python's float
  `int(d / scale)` can come out one lower. For example, for a 2448 x 3264 image, resized row 75
  maps to 407 in double arithmetic but to 408 exactly (worked out by hand, not executed).
- Interaction.SampledPixel: it samples at the exact floor of d / scale. For the reason above, the
  program's float computation can sample the pixel one row or column lower.
- Simulation.GreyIsKept: it holds in exact reals only. In float32 the Tritanopia row
  (0.95, 0.05, 0) sums to slightly below 1, and grey 11 comes out as 10 (worked out by hand, not
  executed). The Normal identity stays exact in float32.
- Simulation.TransformPixel: it uses exact reals, not `float32` arithmetic. `astype(np.uint8)`
  is modelled as truncation of a value already in [0, 255].
- The matrix table is keyed by the `Mode` datatype instead of by the mode's name string.
  `Simulation.ModeName` gives the name, and since every mode is in the table the fallback
  branch is never taken.
- `new_recog.py:97` does not cap the scale at 1, so small images are enlarged
  (`Geometry.FittingImagesAreEnlarged`). `recog.py:63` paints the colour box into `self.img`
  itself, so later clicks on the box sample the painted colour (`Recog.ClickOnBoxSamplesOverlay`).
- NewRecog.Preview: the application model builds the preview with the corrected red-first
  `Simulation.TransformPixel`, not with the blue-first product that `new_recog.py:190`
  computes (`Simulation.TransformStored`); see "## Findings". The frames and runs of the
  model therefore show the intended colours, not the ones the code as written shows.
- Simulation.SimulateImage: it applies the corrected transform to every pixel, for the same reason.
- NewRecog.App.ApplySimulation: it stores the corrected preview, for the same reason.
- NewRecog.ModeLabelHidesImage and Annotation.GlyphsInModeBox: they rely on the rasteriser
  keeping glyphs within the extents it reports (`Annotation.DrawsWithin`), which is assumed of
  `cv2.putText` and `cv2.getTextSize`, not proved.
- The `recog.py` callback indexes `img[y, x]` without a bounds check. The model requires every
  double-click to lie on the image, so negative-index wrap-around and the `IndexError` are not modelled.
- NewRecog.App.Run and Recog.RecogApp.Run: the loops run over a finite script, not forever.

## Findings

| source | as written | input that shows it | evidently intended | confidence | as-written member | corrected member |
|---|---|---|---|---|---|---|
| new_recog.py:189-190 | `cv2.transform` multiplies the matrices, whose rows are written for red, green, blue, with pixels that OpenCV stores blue, green, red. | A pure red pixel, stored (0, 0, 255), under Protanopia becomes (0, 0, 193), still pure red. | The matrix applied in red, green, blue order: (144, 142, 0), stored (0, 142, 144). | high for the channel order, exact reals; not executed | Simulation.StoredOrderMisreadsPureRed | Simulation.TransformPixel |
