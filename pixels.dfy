/** RGBA pixel buffers and the alpha-threshold export pass of the mask editor.

    A buffer holds four bytes per pixel, in the order R, G, B, A, as the
    canvas `ImageData.data` array does. The export pass reads the painted mask
    buffer and overwrites only the alpha byte of each pixel of a copy of the
    source image. */
module Pixels {

  /** One channel value of an RGBA buffer. */
  type Byte = b: int | 0 <= b < 256

  /** Alpha written for a pixel that lies inside the mask. */
  const OpaqueAlpha: Byte := 255

  /** A pixel is inside the mask when the mean of its R, G, B is above this. */
  const MaskThreshold: int := 128

  /** A buffer of whole pixels. */
  predicate IsRgba(s: seq<Byte>) {
    |s| % 4 == 0
  }

  /** A buffer of `n` bytes that are all zero: transparent black, which is what
      clearing a canvas leaves behind. */
  function Blank(n: nat): (s: seq<Byte>)
    ensures |s| == n
    ensures forall k :: 0 <= k < n ==> s[k] == 0
  {
    seq(n, _ => 0)
  }

  /** The mask value of a pixel: the mean of its colour channels, as a real
      number, just as the division by three computes it. */
  function MaskValue(r: Byte, g: Byte, b: Byte): (v: real) {
    (r as int + g as int + b as int) as real / 3.0
  }

  /** Whether a mask pixel counts as painted. */
  predicate IsMasked(r: Byte, g: Byte, b: Byte) {
    MaskValue(r, g, b) > MaskThreshold as real
  }

  /** The mean test needs no fractions: it is a test on the integer sum. */
  lemma MaskedIffSumAbove(r: Byte, g: Byte, b: Byte)
    ensures IsMasked(r, g, b) <==> r as int + g as int + b as int > 3 * MaskThreshold
  {
  }

  /** The channel sum of the mask pixel that starts at byte `i`. */
  function ColourSum(s: seq<Byte>, i: nat): (sum: int)
    requires i + 2 < |s|
  {
    s[i] as int + s[i + 1] as int + s[i + 2] as int
  }

  /** The alpha byte the export writes for one pixel whose mask colour is
      (r, g, b), given the alpha chosen for pixels outside the mask. */
  function PixelAlpha(r: Byte, g: Byte, b: Byte, nonMask: Byte): (a: Byte) {
    if IsMasked(r, g, b) then OpaqueAlpha else nonMask
  }

  /** The export buffer: `data` with the alpha byte of every pixel replaced by
      the alpha its mask pixel calls for, and every other byte kept. */
  function Thresholded(mask: seq<Byte>, data: seq<Byte>, nonMask: Byte): (r: seq<Byte>)
    requires |mask| == |data| && IsRgba(data)
    ensures |r| == |data|
    decreases |data|
  {
    if |data| == 0 then []
    else data[..3] + [PixelAlpha(mask[0], mask[1], mask[2], nonMask)]
         + Thresholded(mask[4..], data[4..], nonMask)
  }

  /** Byte `k` of the export: an alpha byte comes from the mask pixel it belongs
      to, any other byte is the source byte. */
  lemma {:induction false} ThresholdedAt(mask: seq<Byte>, data: seq<Byte>, nonMask: Byte, k: nat)
    requires |mask| == |data| && IsRgba(data) && k < |data|
    ensures Thresholded(mask, data, nonMask)[k] ==
            if k % 4 == 3 then PixelAlpha(mask[k - 3], mask[k - 2], mask[k - 1], nonMask)
            else data[k]
  {
    var r := Thresholded(mask, data, nonMask);
    if k >= 4 {
      ThresholdedAt(mask[4..], data[4..], nonMask, k - 4);
      assert r[k] == Thresholded(mask[4..], data[4..], nonMask)[k - 4];
      assert (k - 4) % 4 == k % 4;
    }
  }

  /** The export keeps the length and every R, G and B byte of the source. */
  lemma ThresholdedKeepsColour(mask: seq<Byte>, data: seq<Byte>, nonMask: Byte)
    requires |mask| == |data| && IsRgba(data)
    ensures |Thresholded(mask, data, nonMask)| == |data|
    ensures forall k :: 0 <= k < |data| && k % 4 != 3 ==> Thresholded(mask, data, nonMask)[k] == data[k]
  {
    forall k | 0 <= k < |data| && k % 4 != 3
      ensures Thresholded(mask, data, nonMask)[k] == data[k]
    {
      ThresholdedAt(mask, data, nonMask, k);
    }
  }

  /** Pixel `p` of the export: its colour is the source colour and its alpha is
      255 when the mask pixel's channel sum is above 384 (mean above 128) and
      `nonMask` otherwise. */
  lemma ThresholdedPixel(mask: seq<Byte>, data: seq<Byte>, nonMask: Byte, p: nat)
    requires |mask| == |data| && IsRgba(data) && 4 * p < |data|
    ensures var r := Thresholded(mask, data, nonMask);
      && r[4 * p] == data[4 * p]
      && r[4 * p + 1] == data[4 * p + 1]
      && r[4 * p + 2] == data[4 * p + 2]
      && r[4 * p + 3] == if ColourSum(mask, 4 * p) > 384 then 255 else nonMask
  {
    ThresholdedAt(mask, data, nonMask, 4 * p);
    ThresholdedAt(mask, data, nonMask, 4 * p + 1);
    ThresholdedAt(mask, data, nonMask, 4 * p + 2);
    ThresholdedAt(mask, data, nonMask, 4 * p + 3);
    MaskedIffSumAbove(mask[4 * p], mask[4 * p + 1], mask[4 * p + 2]);
  }

  /** With the fixed non-mask alpha of 128, an exported pixel is fully opaque
      exactly when it is painted, half transparent exactly when it is not, and
      never fully transparent. */
  lemma FixedThresholdAlpha(mask: seq<Byte>, data: seq<Byte>, p: nat)
    requires |mask| == |data| && IsRgba(data) && 4 * p < |data|
    ensures var a := Thresholded(mask, data, 128)[4 * p + 3];
      && (a == 255 <==> ColourSum(mask, 4 * p) > 384)
      && (a == 128 <==> ColourSum(mask, 4 * p) <= 384)
      && a != 0
  {
    ThresholdedPixel(mask, data, 128, p);
  }

  /** The export pass, in place: for each pixel of `mask`, write the alpha byte
      of the same pixel of `data`. */
  method ApplyAlphaThreshold(mask: array<Byte>, data: array<Byte>, nonMask: Byte)
    requires mask != data
    requires mask.Length == data.Length && IsRgba(data[..])
    modifies data
    ensures data[..] == Thresholded(mask[..], old(data[..]), nonMask)
  {
    var i := 0;
    while i < mask.Length
      invariant 0 <= i <= mask.Length && i % 4 == 0
      invariant forall k :: 0 <= k < data.Length ==>
        data[k] == if k < i && k % 4 == 3 then PixelAlpha(mask[k - 3], mask[k - 2], mask[k - 1], nonMask)
                   else old(data[k])
    {
      var maskValue := (mask[i] as int + mask[i + 1] as int + mask[i + 2] as int) as real / 3.0;
      data[i + 3] := if maskValue > MaskThreshold as real then OpaqueAlpha else nonMask;
      i := i + 4;
    }
    ghost var was := old(data[..]);
    forall k | 0 <= k < data.Length
      ensures data[..][k] == Thresholded(mask[..], was, nonMask)[k]
    {
      ThresholdedAt(mask[..], was, nonMask, k);
    }
  }
}
