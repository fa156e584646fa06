/**
 * `isCanvasBlank`: the alpha-only blank test over a canvas's pixel buffer.
 *
 * The buffer is `getImageData(...).data`: four bytes per pixel, red,
 * green, blue and alpha, row by row. The canvas itself is not modelled;
 * its buffer is the input.
 */
module CanvasBlank {
  import opened Color

  /** The alpha byte of pixel `p` of a buffer. */
  function Alpha(data: seq<Byte>, p: int): Byte
    requires 0 <= p < |data| / 4
  {
    data[4 * p + 3]
  }

  /** No whole pixel of the buffer is fully opaque. */
  predicate CanvasBlank(data: seq<Byte>) {
    forall p :: 0 <= p < |data| / 4 ==> Alpha(data, p) != 255
  }

  /**
   * The stride-4 walk over the buffer that stops at the first alpha byte
   * equal to 255. A byte read past the end is `undefined`, never 255.
   */
  method IsCanvasBlank(data: seq<Byte>) returns (blank: bool)
    ensures blank <==> CanvasBlank(data)
  {
    var i := 0;
    while i < |data|
      invariant 0 <= i && i % 4 == 0
      invariant i / 4 <= |data| / 4 || i >= |data|
      invariant forall p :: 0 <= p < i / 4 && p < |data| / 4 ==> Alpha(data, p) != 255
    {
      if i + 3 < |data| && data[i + 3] == 255 {
        assert Alpha(data, i / 4) == 255;
        return false;
      }
      i := i + 4;
    }
    return true;
  }

  /** The buffer `getImageData` lays out for a row-major list of pixels. */
  function Bytes(pixels: seq<Rgba>): (data: seq<Byte>)
    ensures |data| == 4 * |pixels|
  {
    if pixels == [] then []
    else [pixels[0].r, pixels[0].g, pixels[0].b, pixels[0].a] + Bytes(pixels[1..])
  }

  /** Pixel `p` of the buffer carries the alpha of the `p`-th pixel. */
  lemma {:induction false} BytesAlpha(pixels: seq<Rgba>, p: int)
    requires 0 <= p < |pixels|
    ensures |Bytes(pixels)| / 4 == |pixels|
    ensures Alpha(Bytes(pixels), p) == pixels[p].a
  {
    if p > 0 {
      BytesAlpha(pixels[1..], p - 1);
      assert Bytes(pixels)[4 * p + 3] == Bytes(pixels[1..])[4 * (p - 1) + 3];
    }
  }

  /**
   * A canvas is blank exactly when none of its pixels has alpha 255:
   * every alpha from 0 to 254 counts as blank, and the colour is never
   * looked at.
   */
  lemma {:induction false} CanvasBlankPixels(pixels: seq<Rgba>)
    ensures CanvasBlank(Bytes(pixels)) <==> forall i :: 0 <= i < |pixels| ==> pixels[i].a != 255
  {
    forall i | 0 <= i < |pixels|
      ensures Alpha(Bytes(pixels), i) == pixels[i].a
    {
      BytesAlpha(pixels, i);
    }
  }

  /** An empty buffer is blank. */
  lemma {:induction false} EmptyCanvasBlank()
    ensures CanvasBlank([])
  {
  }

  /** A single opaque magenta pixel makes a canvas not blank. */
  lemma {:induction false} OpaqueMagentaNotBlank(pixels: seq<Rgba>)
    requires MAGENTA24 in pixels
    ensures !CanvasBlank(Bytes(pixels))
  {
    CanvasBlankPixels(pixels);
  }
}
