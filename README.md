# Image mask editor — verified model

A Dafny model of the logic inside the `ImageMaskEditor` component. The component lets a user
load an image, paint a mask over it with a brush or an eraser, and separate the result into an
original layer and a mask layer. It also exports a "transparent" PNG. The buffer written into that PNG
keeps the image's colour in every pixel, and its alpha says whether the pixel is inside the mask:
255 inside, and outside a fixed 128 or a value the user chooses. (How the PNG encoding may then
alter colour is listed under "Left out".)

The model has four modules besides `Wrappers` (an `Option` type):

- `Pixels` (pixels.dfy): RGBA byte buffers and the alpha-threshold pass. The specification function
  `Thresholded` says what the export buffer is. The method `ApplyAlphaThreshold` runs the pass in
  place over two arrays, as the source's loop does, and is proved equal to that function. Lemmas
  state that pixel by pixel.
- `Opacity` (opacity.dfy): choosing the non-mask alpha (default 128, clamp to [0, 255]). Also the
  decimal rendering of that value in the download name, with a parser that reads the value back.
- `Lifecycle` (lifecycle.dfy): the component's state as a value `Session` (image, mask canvas,
  separated layers, `isDrawing`). Each event handler is a function, kept inside the invariant
  `Valid`, and lemmas relate the handlers to one another.
- `Editor` (editor.dfy): the class `MaskEditor`. Its fields are updated in place by one method per
  handler, and each method is specified by the matching `Lifecycle` function. The two export
  methods copy the image and the mask into fresh arrays and call `ApplyAlphaThreshold`.

Inputs that come from the browser are parameters:
- the decoded image (`Option<Image>`, `None` when no file was chosen or it never loaded);
- the mask canvas after the rendering API stroked a path (`stroked`);
- the custom-transparency answer, already parsed (`Option<int>`, `None` for a cancelled or empty
  prompt).

Two behaviours of the component that one might expect otherwise, modelled as the code has them:

- Painting a stroke does NOT discard a separation. `handleMouseMove` never touches
  `separatedLayers`, so cached layers survive strokes (`Lifecycle.StrokeKeepsLayers`).
- A separation caches two artifacts (original and mask), not three. The "masked" tab reads the live
  canvas. `separateLayers` computes a masked-image URL and throws it away.

The main canvas and the mask canvas are only rendered while an image is loaded. So the guards
"canvas missing" and "no image" are one condition here, and mouse-down's guard on the mask canvas
alone becomes a guard on the image.

## Model

| member | source | states |
|---|---|---|
| `Pixels.Blank` | components/image-mask-editor.tsx:270 | clearing a canvas leaves every byte zero (transparent black), length kept |
| `Pixels.MaskedIffSumAbove` | components/image-mask-editor.tsx:204-210 | the test "mean of R, G, B above 128" holds exactly when R+G+B > 384 |
| `Pixels.Thresholded` | components/image-mask-editor.tsx:202-211 | the export buffer has the length of the source buffer |
| `Pixels.ThresholdedAt` | components/image-mask-editor.tsx:202-211 | every byte is accounted for: an alpha byte (index 4p+3) gets the mask pixel's alpha, any other byte is the source byte |
| `Pixels.ThresholdedKeepsColour` | components/image-mask-editor.tsx:202-211 | the export buffer keeps the length and every R, G and B byte of the source |
| `Pixels.ThresholdedPixel` | components/image-mask-editor.tsx:204-210 | pixel p keeps its colour, and its alpha is 255 if its mask channel sum is above 384 and the non-mask alpha otherwise |
| `Pixels.FixedThresholdAlpha` | components/image-mask-editor.tsx:204-210 | with non-mask alpha 128: alpha is 255 iff the pixel is painted, 128 iff it is not, and never 0 |
| `Pixels.ApplyAlphaThreshold` | components/image-mask-editor.tsx:202-252 | the in-place loop of both exports (:202-211 with 128, :248-252 with the chosen alpha) leaves the export array equal to `Thresholded` of the mask and the old export array |
| `Opacity.Clamp` | components/image-mask-editor.tsx:245 | the result is the input inside [0, 255], 0 below (e.g. -10) and 255 above (e.g. 500) |
| `Opacity.ValidOpacity` | components/image-mask-editor.tsx:243-245 | a cancelled or empty prompt gives 128; an answer gives the answer clamped to [0, 255] |
| `Opacity.ClampIdempotent` | components/image-mask-editor.tsx:245 | clamping an already clamped value changes nothing |
| `Opacity.Decimal` | components/image-mask-editor.tsx:259 | the numeral in the file name is non-empty, all digits, with a leading zero only for 0 |
| `Opacity.DecimalRoundTrip` | components/image-mask-editor.tsx:259 | reading the numeral back gives the number |
| `Opacity.FilenameRoundTrip` | components/image-mask-editor.tsx:259 | the custom export's file name carries exactly the alpha that was written |
| `Opacity.CustomFilenameInjective` | components/image-mask-editor.tsx:259 | different alphas give different file names |
| `Opacity.CustomFilenameExamples` | components/image-mask-editor.tsx:243-259 | answers -10, 500 and none give the names with 0, 255 and 128: the clamped value, not the raw input |
| `Lifecycle.ImageIsRgba` | components/image-mask-editor.tsx:37-40 | a decoded image's buffer is whole RGBA pixels, so the pass can step by 4 |
| `Lifecycle.Initial` | components/image-mask-editor.tsx:12-20 | the first state has no image, no layers, no stroke, and is valid |
| `Lifecycle.Upload` | components/image-mask-editor.tsx:52-66 | a loaded file becomes the image, the mask canvas is blank at its size, layers are discarded, `isDrawing` is kept; no file changes nothing |
| `Lifecycle.NewImage` | components/image-mask-editor.tsx:340-346 | the new-image button drops the image and the separated layers and keeps `isDrawing` |
| `Lifecycle.ClearMask` | components/image-mask-editor.tsx:265-281 | clear keeps the image, blanks the mask and discards the layers; without an image it does nothing |
| `Lifecycle.SeparateLayers` | components/image-mask-editor.tsx:146-168 | separation caches the current mask as the mask layer and changes nothing else; without an image it does nothing |
| `Lifecycle.MouseDown` | components/image-mask-editor.tsx:69-96 | a press starts a stroke and paints nothing; without the canvas it does nothing |
| `Lifecycle.MouseMove` | components/image-mask-editor.tsx:99-113 | a move replaces the mask only while a stroke is in progress and never touches image, layers or `isDrawing` |
| `Lifecycle.MouseUp` | components/image-mask-editor.tsx:116-118 | release (and leave) end the stroke and change nothing else |
| `Lifecycle.SaveTransparent` | components/image-mask-editor.tsx:182-221 | a download exists iff an image of non-zero area is loaded (reading back a zero-area canvas at :198 raises an error); it is named `transparent-masked-image.png` and has the image's size |
| `Lifecycle.SaveCustomTransparent` | components/image-mask-editor.tsx:223-262 | a download exists iff an image of non-zero area is loaded (reading back a zero-area canvas at :239 raises an error before the prompt); its name embeds the clamped alpha and it has the image's size |
| `Lifecycle.ZeroAreaImageNoDownload` | components/image-mask-editor.tsx:196-199 | an image of zero width or height loads, but neither export downloads: `getImageData` on a zero-area canvas raises an error |
| `Lifecycle.NoImageNoEffect` | components/image-mask-editor.tsx:146-266 | with no image, clear, separate, mouse down and move are no-ops (only release or leave still acts) and neither export downloads |
| `Lifecycle.SeparateIdempotent` | components/image-mask-editor.tsx:146-168 | separating twice in a row equals separating once |
| `Lifecycle.SeparateFromCurrentState` | components/image-mask-editor.tsx:164-167 | the layers depend only on the current image and mask, not on what was cached before |
| `Lifecycle.ClearThenSeparate` | components/image-mask-editor.tsx:265-281 | clear then separate gives an all-zero mask layer and the image itself as original layer |
| `Lifecycle.MoveOutsideStrokeIsInert` | components/image-mask-editor.tsx:99-118 | a move outside a stroke, and any move after release or leave, changes nothing |
| `Lifecycle.StrokeKeepsLayers` | components/image-mask-editor.tsx:99-113 | a stroke leaves the separated layers exactly as they were |
| `Lifecycle.ResetsDiscardLayers` | components/image-mask-editor.tsx:59-60 | upload, new image and clear all leave no separated layers |
| `Lifecycle.ExportPixel` | components/image-mask-editor.tsx:202-252 | in the export buffer of both exports each pixel keeps the image's RGB; its alpha is 255 when the mask sum is above 384, otherwise 128 (fixed) or the clamped answer (custom) |
| `Lifecycle.CancelledCustomIsFixed` | components/image-mask-editor.tsx:243-259 | with no answer the custom export downloads exactly when the fixed one does, with the same pixels, under a name carrying 128 |
| `Editor.MaskEditor.constructor` | components/image-mask-editor.tsx:12-20 | a new component is in the initial state |
| `Editor.MaskEditor.HandleFileUpload` | components/image-mask-editor.tsx:52-66 | updates the fields as `Lifecycle.Upload` and keeps `Valid` |
| `Editor.MaskEditor.UploadNewImage` | components/image-mask-editor.tsx:340-346 | updates the fields as `Lifecycle.NewImage` and keeps `Valid` |
| `Editor.MaskEditor.ClearMask` | components/image-mask-editor.tsx:265-281 | updates the fields as `Lifecycle.ClearMask` and keeps `Valid` |
| `Editor.MaskEditor.SeparateLayers` | components/image-mask-editor.tsx:146-168 | updates the fields as `Lifecycle.SeparateLayers` and keeps `Valid` |
| `Editor.MaskEditor.HandleMouseDown` | components/image-mask-editor.tsx:69-72 | updates the fields as `Lifecycle.MouseDown` and keeps `Valid` |
| `Editor.MaskEditor.HandleMouseMove` | components/image-mask-editor.tsx:99-113 | updates the fields as `Lifecycle.MouseMove` and keeps `Valid` |
| `Editor.MaskEditor.HandleMouseUp` | components/image-mask-editor.tsx:116-118 | updates the fields as `Lifecycle.MouseUp` and keeps `Valid` |
| `Editor.MaskEditor.ExportPixels` | components/image-mask-editor.tsx:185-214 | copying image and mask into fresh buffers and running the pass yields `Thresholded` of the mask and the image |
| `Editor.MaskEditor.SaveMaskedImageWithTransparency` | components/image-mask-editor.tsx:182-221 | returns exactly the download `Lifecycle.SaveTransparent` describes |
| `Editor.MaskEditor.SaveMaskedImageWithCustomTransparency` | components/image-mask-editor.tsx:223-262 | returns exactly the download `Lifecycle.SaveCustomTransparent` describes for the answer |

## Left out

- Canvas rendering is left out: drawing the image, stroking paths with round caps and joins at the
  brush width, the eraser's `destination-out` mode, and the preview composite at the mask-opacity
  slider (`drawMaskOnMainCanvas`, :121-143, :294-296). This is a foreign API with anti-aliased
  floating-point blending. A stroke's result enters as the `stroked` buffer, so the model does not
  say which pixels a stroke paints.
- Mapping screen coordinates to canvas coordinates (:75-77, :104-106) is left out. It is
  floating-point arithmetic on DOM rectangle values.
- The tool-state setters (brush or eraser, brush size, mask opacity) are left out. Each only assigns
  a slider or button value, and only the rendering reads them.
- File reading and image decoding, `getImageData`/`putImageData` and PNG encoding (`toDataURL`)
  are left out. Buffers stand for the images, and the cached layers hold pixels instead of PNG data
  URLs. The `downloadLayer` link click is also left out: a download is returned as a value.
- `Lifecycle.SaveTransparent`, `Lifecycle.SaveCustomTransparent`, `Lifecycle.ExportPixel`: a download's
  `pixels` is the buffer handed to `putImageData` (:214, :255), not the decoded PNG. Browsers store
  canvas bitmaps with premultiplied alpha, so the `putImageData`/`toDataURL` round trip can round
  the colour of a pixel whose alpha is below 255, and loses it entirely at alpha 0 (a custom answer
  of 0 or less). That round trip is not modelled, so "keeps the image's RGB" holds of the export
  buffer, not necessarily of the downloaded file.
- The error that `getImageData` raises on a zero-area canvas (:198, :239) is modelled as "no
  download". That the error propagates out of the click handler is not modelled; it changes no
  component state.
- `getContext("2d")` is assumed to succeed. The guards on its result (:35, :191, :197, :232, :238,
  :269, :274) are not modelled; only the missing image or canvas is.
- `saveMaskedImage` (:171-179) is left out. It downloads the preview composite, which is not modelled.
- The original-layer and mask-layer download buttons (:422, :438) are left out. They only hand the
  cached layers to the download, so they hold no logic beyond that.
- The prompt and `Number.parseInt` (:243-244) are left out; the answer arrives parsed.
  - A non-numeric answer parses to NaN, which the clamp does not catch, so the file name would
    carry "NaN". That path is not modelled.
  - Neither is `parseInt` accepting a numeric prefix ("12px" gives 12).
- React's deferred state updates are left out: a handler that runs before the re-render still sees
  the old `isDrawing`. Events are modelled as applied one after another.
- `Lifecycle.MouseMove` takes a `stroked` buffer of the mask's size. The rendering API never
  resizes the canvas during a stroke.
