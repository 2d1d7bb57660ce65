/** The mask editor component: its session state as fields that the event
    handlers update in place, and the two transparency exports, which run the
    alpha-threshold pass over freshly read pixel buffers. Each handler is
    specified by the matching function of the Lifecycle module. */
module Editor {
  import opened Wrappers
  import opened Pixels
  import opened Opacity
  import Lifecycle

  class MaskEditor {
    var image: Option<Lifecycle.Image>
    var mask: seq<Byte>
    var layers: Option<Lifecycle.Layers>
    var drawing: bool

    /** The component's state as a value. */
    function State(): (s: Lifecycle.Session)
      reads this
    {
      Lifecycle.Session(image, mask, layers, drawing)
    }

    ghost predicate Valid()
      reads this
    {
      Lifecycle.Valid(State())
    }

    constructor ()
      ensures Valid() && State() == Lifecycle.Initial()
    {
      image, mask, layers, drawing := None, [], None, false;
    }

    method HandleFileUpload(file: Option<Lifecycle.Image>)
      requires Valid()
      modifies this
      ensures Valid() && State() == Lifecycle.Upload(old(State()), file)
    {
      if file.Some? {
        image := file;
        mask := Blank(|file.value.pixels|);
        layers := None;
      }
    }

    /** The "upload new image" button. */
    method UploadNewImage()
      requires Valid()
      modifies this
      ensures Valid() && State() == Lifecycle.NewImage(old(State()))
    {
      image := None;
      mask := [];
      layers := None;
    }

    method ClearMask()
      requires Valid()
      modifies this
      ensures Valid() && State() == Lifecycle.ClearMask(old(State()))
    {
      if image.None? {
        return;
      }
      mask := Blank(|mask|);
      layers := None;
    }

    method SeparateLayers()
      requires Valid()
      modifies this
      ensures Valid() && State() == Lifecycle.SeparateLayers(old(State()))
    {
      if image.None? {
        return;
      }
      layers := Some(Lifecycle.Layers(image.value.pixels, mask));
    }

    method HandleMouseDown()
      requires Valid()
      modifies this
      ensures Valid() && State() == Lifecycle.MouseDown(old(State()))
    {
      if image.None? {
        return;
      }
      drawing := true;
    }

    /** `stroked` is the mask canvas after the rendering API stroked the path. */
    method HandleMouseMove(stroked: seq<Byte>)
      requires Valid() && |stroked| == |mask|
      modifies this
      ensures Valid() && State() == Lifecycle.MouseMove(old(State()), stroked)
    {
      if !drawing || image.None? {
        return;
      }
      mask := stroked;
    }

    /** Also the handler for the pointer leaving the canvas. */
    method HandleMouseUp()
      requires Valid()
      modifies this
      ensures Valid() && State() == Lifecycle.MouseUp(old(State()))
    {
      drawing := false;
    }

    /** Copy the image and the mask canvas into fresh buffers and run the
        threshold pass with the given non-mask alpha. */
    method ExportPixels(nonMask: Byte) returns (pixels: seq<Byte>)
      requires Valid() && image.Some?
      ensures pixels == Thresholded(mask, image.value.pixels, nonMask)
    {
      Lifecycle.ImageIsRgba(image.value);
      var source := image.value.pixels;
      var painted := mask;
      var maskData := new Byte[|painted|](i requires 0 <= i < |painted| => painted[i]);
      var originalData := new Byte[|source|](i requires 0 <= i < |source| => source[i]);
      assert maskData[..] == painted && originalData[..] == source;
      ApplyAlphaThreshold(maskData, originalData, nonMask);
      pixels := originalData[..];
    }

    method SaveMaskedImageWithTransparency() returns (d: Option<Lifecycle.Download>)
      requires Valid()
      ensures d == Lifecycle.SaveTransparent(State())
    {
      // Reading back a zero-area canvas raises an error: nothing downloads.
      if image.None? || |image.value.pixels| == 0 {
        return None;
      }
      var pixels := ExportPixels(DefaultNonMaskAlpha);
      d := Some(Lifecycle.Download(FixedFilename, pixels));
    }

    /** `answer` is the prompt's answer, already parsed. */
    method SaveMaskedImageWithCustomTransparency(answer: Option<int>) returns (d: Option<Lifecycle.Download>)
      requires Valid()
      ensures d == Lifecycle.SaveCustomTransparent(State(), answer)
    {
      // Reading back a zero-area canvas raises an error before the prompt.
      if image.None? || |image.value.pixels| == 0 {
        return None;
      }
      var opacity := if answer.Some? then answer.value else 128;
      var validOpacity := Max(0, Min(255, opacity));
      var pixels := ExportPixels(validOpacity);
      d := Some(Lifecycle.Download(CustomFilename(validOpacity), pixels));
    }
  }
}
