/** Extraction of a tile's 24-bit palette (`get24BitPalette`). */
module Palette24 {
  import opened Color
  import opened Seqs

  /**
   * The palette of an image: the magenta sentinel followed by the pixels,
   * each distinct RGBA tuple kept at its first occurrence. The source
   * removes repeats through the key `r24c-R,G,B,A`, which names a tuple
   * uniquely, so the comparison is on all four components.
   */
  function Palette24Of(pixels: seq<Rgba>): (r: seq<Rgba>)
    ensures |r| >= 1 && r[0] == MAGENTA24
    ensures Distinct(r)
    ensures Elems(r) == {MAGENTA24} + Elems(pixels)
    ensures |r| <= 1 + |pixels|
  {
    UniqHead([MAGENTA24] + pixels);
    assert forall y :: y in [MAGENTA24] + pixels <==> y == MAGENTA24 || y in pixels;
    Uniq([MAGENTA24] + pixels)
  }

  /**
   * Walks the pixels, collecting their colours, puts the sentinel in front
   * and removes repeats.
   */
  method Get24BitPalette(pixels: seq<Rgba>) returns (palette: seq<Rgba>)
    ensures palette == Palette24Of(pixels)
  {
    var colors: seq<Rgba> := [];
    var i := 0;
    while i < |pixels|
      invariant 0 <= i <= |pixels|
      invariant colors == pixels[..i]
    {
      colors := colors + [pixels[i]];
      i := i + 1;
    }
    assert colors == pixels;
    colors := [MAGENTA24] + colors;
    palette := Uniq(colors);
  }

  /**
   * Entries keep first-occurrence order: an entry that comes earlier in the
   * palette occurs earlier in the sentinel-prefixed pixel sequence.
   */
  lemma {:induction false} PaletteFirstOccurrenceOrder(pixels: seq<Rgba>, i: int, j: int)
    requires 0 <= i < j < |Palette24Of(pixels)|
    ensures IndexOf([MAGENTA24] + pixels, Palette24Of(pixels)[i])
          < IndexOf([MAGENTA24] + pixels, Palette24Of(pixels)[j])
  {
    UniqKeepsOrder([MAGENTA24] + pixels, i, j);
  }

  /** A tile drawn only in opaque magenta has the sentinel as its whole palette. */
  lemma {:induction false} AllMagentaPalette(pixels: seq<Rgba>)
    requires forall i :: 0 <= i < |pixels| ==> pixels[i] == MAGENTA24
    ensures Palette24Of(pixels) == [MAGENTA24]
  {
    UniqAllSame([MAGENTA24] + pixels, MAGENTA24);
  }
}
