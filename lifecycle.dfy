/** The editor session as a value, and each event handler as a function from
    the session before the event to the session after it.

    The source image, the mask canvas and the main canvas come and go
    together: the canvases are only on screen while an image is loaded, so
    "a canvas is missing" and "no image is loaded" are the same condition
    here. */
module Lifecycle {
  import opened Wrappers
  import opened Pixels
  import opened Opacity

  /** A decoded raster. */
  datatype Raster = Raster(width: nat, height: nat, pixels: seq<Byte>)

  /** A raster whose buffer holds exactly `width * height` RGBA pixels. */
  type Image = r: Raster | |r.pixels| == 4 * (r.width * r.height) witness Raster(0, 0, [])

  /** An image's buffer is made of whole pixels. */
  lemma ImageIsRgba(img: Image)
    ensures IsRgba(img.pixels)
  {
  }

  /** The cached artifacts of a separation: the original layer and the mask
      layer. Being one value, they are present together or absent together. */
  datatype Layers = Layers(original: seq<Byte>, mask: seq<Byte>)

  /** A file download: its name and the pixels it encodes. */
  datatype Download = Download(filename: string, pixels: seq<Byte>)

  /** The state of the editor component. `mask` is the content of the mask
      canvas, `drawing` whether a stroke is in progress. */
  datatype Session = Session(image: Option<Image>, mask: seq<Byte>, layers: Option<Layers>, drawing: bool)

  /** The session invariant: without an image there is no mask and no
      separation; with one, the mask has the image's size and any separated
      original layer is the image itself. */
  predicate Valid(s: Session) {
    && (s.image.None? ==> s.mask == [] && s.layers.None?)
    && (s.image.Some? ==> |s.mask| == |s.image.value.pixels|)
    && (s.layers.Some? ==> s.image.Some? && s.layers.value.original == s.image.value.pixels
                           && |s.layers.value.mask| == |s.mask|)
  }

  /** Before any upload. */
  function Initial(): (s: Session)
    ensures Valid(s) && s.image.None? && !s.drawing
  {
    Session(None, [], None, false)
  }

  /** A file was picked and decoded (`None`: no file, or it never loaded).
      The new image replaces the old one; the mask canvas is resized to it,
      which leaves it blank, and any separation is discarded. */
  function Upload(s: Session, file: Option<Image>): (r: Session)
    requires Valid(s)
    ensures Valid(r) && r.drawing == s.drawing
    ensures file.None? ==> r == s
    ensures file.Some? ==> r.image == file && r.layers.None?
    ensures file.Some? ==> forall k :: 0 <= k < |r.mask| ==> r.mask[k] == 0
  {
    match file
    case None => s
    case Some(img) => s.(image := Some(img), mask := Blank(|img.pixels|), layers := None)
  }

  /** The "upload new image" button: back to no image and no separation. */
  function NewImage(s: Session): (r: Session)
    requires Valid(s)
    ensures Valid(r) && r.image.None? && r.layers.None? && r.drawing == s.drawing
  {
    s.(image := None, mask := [], layers := None)
  }

  /** Clear the mask: the mask canvas is emptied, the separation discarded,
      the image kept. Nothing happens without an image. */
  function ClearMask(s: Session): (r: Session)
    requires Valid(s)
    ensures Valid(r) && r.image == s.image && r.drawing == s.drawing
    ensures s.image.Some? ==> r.layers.None? && r.mask == Blank(|s.mask|)
  {
    if s.image.None? then s
    else s.(mask := Blank(|s.mask|), layers := None)
  }

  /** Separate the layers: cache the image as the original layer and the
      current mask canvas as the mask layer. Nothing happens without an
      image. */
  function SeparateLayers(s: Session): (r: Session)
    requires Valid(s)
    ensures Valid(r) && r.image == s.image && r.mask == s.mask && r.drawing == s.drawing
    ensures s.image.Some? ==> r.layers.Some? && r.layers.value.mask == s.mask
  {
    if s.image.None? then s
    else s.(layers := Some(Layers(s.image.value.pixels, s.mask)))
  }

  /** Button pressed on the mask canvas: a stroke starts. Beginning the path
      paints nothing. */
  function MouseDown(s: Session): (r: Session)
    requires Valid(s)
    ensures Valid(r)
    ensures s.image.Some? ==> r.drawing && r.(drawing := s.drawing) == s
    ensures s.image.None? ==> r == s
  {
    if s.image.None? then s else s.(drawing := true)
  }

  /** Pointer moved: when a stroke is in progress the path is stroked into the
      mask canvas, whose new content `stroked` the rendering API produces.
      The separated layers are left as they are. */
  function MouseMove(s: Session, stroked: seq<Byte>): (r: Session)
    requires Valid(s)
    requires |stroked| == |s.mask|
    ensures Valid(r) && r.image == s.image && r.layers == s.layers && r.drawing == s.drawing
    ensures r.mask == if s.drawing && s.image.Some? then stroked else s.mask
  {
    if !s.drawing || s.image.None? then s else s.(mask := stroked)
  }

  /** Button released or pointer left the canvas: the stroke ends. */
  function MouseUp(s: Session): (r: Session)
    requires Valid(s)
    ensures Valid(r) && !r.drawing && r.(drawing := s.drawing) == s
  {
    s.(drawing := false)
  }

  /** Whether the canvases can be read back: reading the pixels of a canvas
      whose width or height is zero raises an error, and a zero-area canvas is
      exactly one whose buffer is empty. */
  predicate HasPixels(s: Session) {
    s.image.Some? && |s.image.value.pixels| > 0
  }

  /** Save as transparent PNG: the image with alpha 255 inside the mask and 128
      elsewhere. No download without an image, nor for a zero-area image, on
      which reading the pixels fails. */
  function SaveTransparent(s: Session): (d: Option<Download>)
    requires Valid(s)
    ensures d.Some? <==> s.image.Some? && |s.image.value.pixels| > 0
    ensures d.Some? ==> d.value.filename == FixedFilename
                        && |d.value.pixels| == |s.image.value.pixels|
  {
    if !HasPixels(s) then None
    else
      ImageIsRgba(s.image.value);
      Some(Download(FixedFilename, Thresholded(s.mask, s.image.value.pixels, DefaultNonMaskAlpha)))
  }

  /** Save with custom transparency: as `SaveTransparent`, with the alpha
      outside the mask taken from the user's answer, clamped, and named in the
      file name. No download without an image, nor for a zero-area image, on
      which reading the pixels fails before the prompt is shown. */
  function SaveCustomTransparent(s: Session, answer: Option<int>): (d: Option<Download>)
    requires Valid(s)
    ensures d.Some? <==> s.image.Some? && |s.image.value.pixels| > 0
    ensures d.Some? ==> d.value.filename == CustomFilename(ValidOpacity(answer))
                        && |d.value.pixels| == |s.image.value.pixels|
  {
    if !HasPixels(s) then None
    else
      ImageIsRgba(s.image.value);
      var validOpacity := ValidOpacity(answer);
      Some(Download(CustomFilename(validOpacity), Thresholded(s.mask, s.image.value.pixels, validOpacity)))
  }

  // ---- Properties of the lifecycle.

  /** An image of zero width or zero height loads, but neither export of it
      downloads anything. */
  lemma ZeroAreaImageNoDownload(s: Session, answer: Option<int>)
    requires Valid(s) && s.image.Some?
    requires s.image.value.width == 0 || s.image.value.height == 0
    ensures SaveTransparent(s).None? && SaveCustomTransparent(s, answer).None?
  {
  }

  /** Without an image clearing, separating, pressing and moving leave the
      session unchanged (only a release or leave still ends a stroke), and
      neither export downloads anything. */
  lemma NoImageNoEffect(s: Session, answer: Option<int>)
    requires Valid(s) && s.image.None?
    ensures ClearMask(s) == s && SeparateLayers(s) == s
    ensures SaveTransparent(s).None? && SaveCustomTransparent(s, answer).None?
    ensures MouseMove(s, []) == s
    ensures MouseDown(s) == s
  {
  }

  /** Separating depends on the current image and mask only, so separating
      again with nothing in between changes nothing. */
  lemma SeparateIdempotent(s: Session)
    requires Valid(s)
    ensures SeparateLayers(SeparateLayers(s)) == SeparateLayers(s)
  {
  }

  /** Two sessions with the same image and mask separate into the same layers,
      whatever was cached before. */
  lemma SeparateFromCurrentState(s: Session, t: Session)
    requires Valid(s) && Valid(t)
    requires s.image == t.image && s.mask == t.mask
    ensures SeparateLayers(s).layers == SeparateLayers(t).layers
  {
  }

  /** Clearing and then separating gives a blank mask layer and the image
      itself as the original layer. */
  lemma ClearThenSeparate(s: Session)
    requires Valid(s) && s.image.Some?
    ensures var l := SeparateLayers(ClearMask(s)).layers;
      l.Some? && l.value.original == s.image.value.pixels
      && |l.value.mask| == |s.image.value.pixels|
      && forall k :: 0 <= k < |l.value.mask| ==> l.value.mask[k] == 0
  {
  }

  /** Moving the pointer outside a stroke changes nothing, and after a button
      release or a leave no move changes anything until the next press. */
  lemma MoveOutsideStrokeIsInert(s: Session, stroked: seq<Byte>)
    requires Valid(s) && |stroked| == |s.mask|
    ensures !s.drawing ==> MouseMove(s, stroked) == s
    ensures MouseMove(MouseUp(s), stroked) == MouseUp(s)
  {
  }

  /** A stroke never discards a separation: the cached layers survive it, and
      may then differ from the mask canvas. */
  lemma StrokeKeepsLayers(s: Session, stroked: seq<Byte>)
    requires Valid(s) && |stroked| == |s.mask|
    ensures MouseMove(MouseDown(s), stroked).layers == s.layers
  {
  }

  /** Each way of loading or dropping an image, and clearing the mask, leave
      no separation behind. */
  lemma ResetsDiscardLayers(s: Session, img: Image)
    requires Valid(s)
    ensures Upload(s, Some(img)).layers.None?
    ensures NewImage(s).layers.None?
    ensures ClearMask(s).layers.None?
  {
  }

  /** Every transparency export keeps every colour byte of the image, and gives
      each pixel alpha 255 when its mask mean is above 128 and the non-mask
      alpha otherwise: 128 for the fixed export, the clamped answer for the
      custom one. */
  lemma ExportPixel(s: Session, answer: Option<int>, p: nat)
    requires Valid(s) && s.image.Some? && 4 * p < |s.image.value.pixels|
    ensures var img, fixed := s.image.value.pixels, SaveTransparent(s).value.pixels;
      && fixed[4 * p] == img[4 * p] && fixed[4 * p + 1] == img[4 * p + 1] && fixed[4 * p + 2] == img[4 * p + 2]
      && fixed[4 * p + 3] == (if ColourSum(s.mask, 4 * p) > 384 then 255 else 128)
    ensures var img, custom := s.image.value.pixels, SaveCustomTransparent(s, answer).value.pixels;
      && custom[4 * p] == img[4 * p] && custom[4 * p + 1] == img[4 * p + 1] && custom[4 * p + 2] == img[4 * p + 2]
      && custom[4 * p + 3] == (if ColourSum(s.mask, 4 * p) > 384 then 255 else ValidOpacity(answer))
  {
    var img := s.image.value.pixels;
    ImageIsRgba(s.image.value);
    assert SaveTransparent(s).value.pixels == Thresholded(s.mask, img, DefaultNonMaskAlpha);
    assert SaveCustomTransparent(s, answer).value.pixels == Thresholded(s.mask, img, ValidOpacity(answer));
    ThresholdedPixel(s.mask, img, DefaultNonMaskAlpha, p);
    ThresholdedPixel(s.mask, img, ValidOpacity(answer), p);
  }

  /** With no answer to the prompt the custom export downloads exactly when the
      fixed one does, the same pixels, under a name that carries 128. */
  lemma CancelledCustomIsFixed(s: Session)
    requires Valid(s) && s.image.Some?
    ensures SaveCustomTransparent(s, None).Some? <==> SaveTransparent(s).Some?
    ensures SaveTransparent(s).Some? ==>
      && SaveCustomTransparent(s, None).value.pixels == SaveTransparent(s).value.pixels
      && FilenameOpacity(SaveCustomTransparent(s, None).value.filename) == Some(128)
  {
    FilenameRoundTrip(DefaultNonMaskAlpha);
  }
}
