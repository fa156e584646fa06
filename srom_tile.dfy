/**
 * The fix-layer (SROM) tile encoder. An 8x8 tile becomes one palette index
 * per pixel, and the indices are packed two to a byte, one column pair at a
 * time, into 32 bytes: bytes 0-7 hold columns 4-5 of rows 0-7, bytes 8-15
 * columns 6-7, bytes 16-23 columns 0-1 and bytes 24-31 columns 2-3. In each
 * byte the left pixel sits in the low nibble.
 *
 * Two generations of the encoder exist: the newer one writes the payload
 * into the tile record and treats every pixel that is not fully opaque as
 * colour 0; the older one builds a new record and looks every pixel up by
 * its colour word.
 */
module SromTile {
  import opened Wrappers
  import opened Color
  import opened Seqs
  import opened Tiles

  const SROM_TILE_SIZE_PX := 8
  const SROM_TILE_SIZE_BYTES := 32

  /** The 64 pixels `getImageData(0, 0, 8, 8)` reads from a tile's image, row-major. */
  function SromPixels(t: Tile): (px: seq<Rgba>)
    ensures |px| == SROM_TILE_SIZE_PX * SROM_TILE_SIZE_PX
  {
    seq(64, i requires 0 <= i < 64 => PixelAt(t.canvasSource, 8, i % 8, i / 8))
  }

  /** The colour word a pixel is looked up by, with or without its dark bit. */
  function LookupWord(c: Rgba, ignoreDarkBit: bool): int {
    if ignoreDarkBit then ConvertTo16BitColorIgnoreDarkBit(c) else ConvertTo16BitColor(c)
  }

  /**
   * The index the newer encoder gives one pixel: 0 for a pixel that is not
   * fully opaque, otherwise the first position of its colour word in the
   * palette, or -1 when the word is missing (`indexOf` never yields
   * `undefined`, so the source's guard against it never fires).
   */
  function PixelIndex(c: Rgba, palette: seq<int>, ignoreDarkBit: bool): (k: int)
    ensures c.a != 255 ==> k == 0
    ensures c.a == 255 ==> (k == -1 <==> LookupWord(c, ignoreDarkBit) !in palette)
    ensures c.a == 255 && k != -1 ==> 0 <= k < |palette| && palette[k] == LookupWord(c, ignoreDarkBit)
    ensures c.a == 255 ==> forall j :: 0 <= j < k ==> palette[j] != LookupWord(c, ignoreDarkBit)
  {
    if c.a != 255 then 0 else IndexOf(palette, LookupWord(c, ignoreDarkBit))
  }

  /** The index the older encoder gives one pixel: its colour word's position, whatever its alpha. */
  function LegacyPixelIndex(c: Rgba, palette: seq<int>): (k: int)
    ensures k == -1 <==> ConvertTo16BitColor(c) !in palette
    ensures k != -1 ==> 0 <= k < |palette| && palette[k] == ConvertTo16BitColor(c)
    ensures forall j :: 0 <= j < k ==> palette[j] != ConvertTo16BitColor(c)
  {
    IndexOf(palette, ConvertTo16BitColor(c))
  }

  /** The newer `getIndexedData` as a value: every pixel's index, in pixel order. */
  function IndexedData(pixels: seq<Rgba>, palette: seq<int>, ignoreDarkBit: bool): (ix: seq<int>)
    ensures |ix| == |pixels|
  {
    seq(|pixels|, i requires 0 <= i < |pixels| => PixelIndex(pixels[i], palette, ignoreDarkBit))
  }

  /** The older `getIndexedData` as a value. */
  function LegacyIndexedData(pixels: seq<Rgba>, palette: seq<int>): (ix: seq<int>)
    ensures |ix| == |pixels|
  {
    seq(|pixels|, i requires 0 <= i < |pixels| => LegacyPixelIndex(pixels[i], palette))
  }

  /** The newer `getIndexedData`: the push loop over the pixels. */
  method GetIndexedData(pixels: seq<Rgba>, palette: seq<int>, ignoreDarkBit: bool) returns (indexed: seq<int>)
    ensures indexed == IndexedData(pixels, palette, ignoreDarkBit)
  {
    indexed := [];
    var i := 0;
    while i < |pixels|
      invariant 0 <= i <= |pixels|
      invariant |indexed| == i
      invariant forall j :: 0 <= j < i ==> indexed[j] == PixelIndex(pixels[j], palette, ignoreDarkBit)
    {
      var color24 := pixels[i];
      var index;
      if color24.a != 255 {
        index := 0;
      } else {
        var color16 := if ignoreDarkBit then ConvertTo16BitColorIgnoreDarkBit(color24)
                       else ConvertTo16BitColor(color24);
        index := IndexOf(palette, color16);
      }
      indexed := indexed + [index];
      i := i + 1;
    }
  }

  /** The older `getIndexedData`: the same loop without the alpha rule. */
  method GetLegacyIndexedData(pixels: seq<Rgba>, palette: seq<int>) returns (indexed: seq<int>)
    ensures indexed == LegacyIndexedData(pixels, palette)
  {
    indexed := [];
    var i := 0;
    while i < |pixels|
      invariant 0 <= i <= |pixels|
      invariant |indexed| == i
      invariant forall j :: 0 <= j < i ==> indexed[j] == LegacyPixelIndex(pixels[j], palette)
    {
      var color16 := ConvertTo16BitColor(pixels[i]);
      indexed := indexed + [IndexOf(palette, color16)];
      i := i + 1;
    }
  }

  /**
   * `(left & 0xf) | ((right & 0xf) << 4)`. On the 32-bit integers involved,
   * `& 0xf` is the Euclidean remainder by 16 (so -1 becomes 0xF), and the
   * two fields occupy separate bits, so the or is a sum.
   */
  function PackByte(left: int, right: int): int {
    left % 16 + (right % 16) * 16
  }

  /** The left column of the pair held by byte block `q`: 4, 6, 0, 2. */
  function BlockColumn(q: int): (x: int)
    requires 0 <= q < 4
  {
    if q == 0 then 4 else if q == 1 then 6 else if q == 2 then 0 else 2
  }

  /** The packed byte for row `y` of block `q`. */
  function SromByte(indexed: seq<int>, q: int, y: int): int
    requires |indexed| == 64 && 0 <= q < 4 && 0 <= y < 8
  {
    PackByte(indexed[y * 8 + BlockColumn(q)], indexed[y * 8 + BlockColumn(q) + 1])
  }

  /** `convertToSromFormat` as a value: byte `8q + y` packs block `q`'s column pair of row `y`. */
  function SromBytes(indexed: seq<int>): (data: seq<int>)
    requires |indexed| == 64
    ensures |data| == SROM_TILE_SIZE_BYTES
    ensures forall i :: 0 <= i < |data| ==> 0 <= data[i] < 256
  {
    seq(32, i requires 0 <= i < 32 => SromByte(indexed, i / 8, i % 8))
  }

  /** `convertToSromFormat`: four loops over the rows, one per byte block. */
  method ConvertToSromFormat(indexed: seq<int>) returns (data: seq<int>)
    requires |indexed| == 64
    ensures data == SromBytes(indexed)
  {
    var sRomData := new int[32];
    for y := 0 to 8
      invariant forall j :: 0 <= j < y ==> sRomData[j] == SromByte(indexed, 0, j)
    {
      sRomData[y] := PackByte(indexed[y * 8 + 4], indexed[y * 8 + 5]);
    }
    for y := 0 to 8
      invariant forall j :: 0 <= j < 8 ==> sRomData[j] == SromByte(indexed, 0, j)
      invariant forall j :: 0 <= j < y ==> sRomData[j + 8] == SromByte(indexed, 1, j)
    {
      sRomData[y + 8] := PackByte(indexed[y * 8 + 6], indexed[y * 8 + 7]);
    }
    for y := 0 to 8
      invariant forall j :: 0 <= j < 16 ==> sRomData[j] == SromByte(indexed, j / 8, j % 8)
      invariant forall j :: 0 <= j < y ==> sRomData[j + 16] == SromByte(indexed, 2, j)
    {
      sRomData[y + 16] := PackByte(indexed[y * 8 + 0], indexed[y * 8 + 1]);
    }
    for y := 0 to 8
      invariant forall j :: 0 <= j < 24 ==> sRomData[j] == SromByte(indexed, j / 8, j % 8)
      invariant forall j :: 0 <= j < y ==> sRomData[j + 24] == SromByte(indexed, 3, j)
    {
      sRomData[y + 24] := PackByte(indexed[y * 8 + 2], indexed[y * 8 + 3]);
    }
    data := sRomData[..];
  }

  /** The byte block holding column `x`: the inverse of `BlockColumn`. */
  function ColumnBlock(x: int): (q: int)
    requires 0 <= x < 8
    ensures 0 <= q < 4 && BlockColumn(q) == x - x % 2
  {
    if x < 2 then 2 else if x < 4 then 3 else if x < 6 then 0 else 1
  }

  /**
   * Reads 64 indices back out of 32 packed bytes: pixel `(x, y)` is a
   * nibble of byte `8 * ColumnBlock(x) + y`, the low one for an even column.
   */
  function UnpackSrom(data: seq<int>): (indexed: seq<int>)
    requires |data| == SROM_TILE_SIZE_BYTES
    ensures |indexed| == 64
  {
    seq(64, i requires 0 <= i < 64 =>
      var b := data[ColumnBlock(i % 8) * 8 + i / 8];
      if i % 2 == 0 then b % 16 else (b / 16) % 16)
  }

  /** Decoding the packed bytes gives back the low nibble of the index at `i`. */
  lemma {:induction false} UnpackPacked(indexed: seq<int>, i: int)
    requires |indexed| == 64 && 0 <= i < 64
    ensures UnpackSrom(SromBytes(indexed))[i] == indexed[i] % 16
  {
    var data := SromBytes(indexed);
    var x, y := i % 8, i / 8;
    var q := ColumnBlock(x);
    var left, right := y * 8 + BlockColumn(q), y * 8 + BlockColumn(q) + 1;
    assert (q * 8 + y) / 8 == q && (q * 8 + y) % 8 == y;
    assert data[q * 8 + y] == PackByte(indexed[left], indexed[right]);
    if x % 2 == 0 {
      assert i == left;
    } else {
      assert i == right;
    }
  }

  /** For indices 0 to 15, decoding the packed bytes is the identity. */
  lemma {:induction false} SromRoundTrip(indexed: seq<int>)
    requires |indexed| == 64
    requires forall i :: 0 <= i < 64 ==> 0 <= indexed[i] < 16
    ensures UnpackSrom(SromBytes(indexed)) == indexed
  {
    var decoded := UnpackSrom(SromBytes(indexed));
    forall i | 0 <= i < 64
      ensures decoded[i] == indexed[i]
    {
      UnpackPacked(indexed, i);
    }
    assert decoded == indexed;
  }

  /** Whether the tile's `paletteIgnoresDarkBit` is set; it defaults to false. */
  function IgnoresDarkBit(t: Tile): bool {
    t.paletteIgnoresDarkBit == Some(true)
  }

  /** The payload the newer encoder computes for a tile with a palette. */
  function EncodeSrom(t: Tile): (data: seq<int>)
    requires t.palette.Some?
    ensures |data| == SROM_TILE_SIZE_BYTES
  {
    SromBytes(IndexedData(SromPixels(t), t.palette.value, IgnoresDarkBit(t)))
  }

  /** The payload the older encoder computes from a tile and its palette. */
  function EncodeSromLegacy(t: Tile): (data: seq<int>)
    requires t.palette.Some?
    ensures |data| == SROM_TILE_SIZE_BYTES
  {
    SromBytes(LegacyIndexedData(SromPixels(t), t.palette.value))
  }

  /** Pixel `(x, y)` of the image is entry `8y + x` of the pixels read. */
  lemma {:induction false} SromPixelAt(t: Tile, x: nat, y: nat)
    requires x < 8 && y < 8
    ensures SromPixels(t)[y * 8 + x] == PixelAt(t.canvasSource, 8, x, y)
  {
    var i := y * 8 + x;
    assert i % 8 == x && i / 8 == y;
  }

  /**
   * What the newer payload says about pixel `(x, y)`: a pixel that is not
   * fully opaque (transparent black outside the image included) reads 0, a
   * colour at palette position `k < 16` reads `k`, and a colour missing
   * from the palette reads 0xF.
   */
  lemma {:induction false} EncodeSromPixel(t: Tile, x: nat, y: nat)
    requires t.palette.Some? && x < 8 && y < 8
    ensures var c := PixelAt(t.canvasSource, 8, x, y);
            var w := LookupWord(c, IgnoresDarkBit(t));
            var v := UnpackSrom(EncodeSrom(t))[y * 8 + x];
            && (c.a != 255 ==> v == 0)
            && (c.a == 255 && w !in t.palette.value ==> v == 15)
            && (c.a == 255 && w in t.palette.value && IndexOf(t.palette.value, w) < 16 ==>
                  v == IndexOf(t.palette.value, w) && t.palette.value[v] == w)
  {
    var i := y * 8 + x;
    var ix := IndexedData(SromPixels(t), t.palette.value, IgnoresDarkBit(t));
    SromPixelAt(t, x, y);
    UnpackPacked(ix, i);
    NibbleOfIndex(ix[i]);
  }

  /**
   * What the older payload says about pixel `(x, y)`: every pixel is looked
   * up by its full colour word, and a missing one reads 0xF.
   */
  lemma {:induction false} EncodeSromLegacyPixel(t: Tile, x: nat, y: nat)
    requires t.palette.Some? && x < 8 && y < 8
    ensures var w := ConvertTo16BitColor(PixelAt(t.canvasSource, 8, x, y));
            var v := UnpackSrom(EncodeSromLegacy(t))[y * 8 + x];
            && (w !in t.palette.value ==> v == 15)
            && (w in t.palette.value && IndexOf(t.palette.value, w) < 16 ==>
                  v == IndexOf(t.palette.value, w) && t.palette.value[v] == w)
  {
    var i := y * 8 + x;
    var ix := LegacyIndexedData(SromPixels(t), t.palette.value);
    SromPixelAt(t, x, y);
    UnpackPacked(ix, i);
    NibbleOfIndex(ix[i]);
  }

  /** The nibble an index packs as: -1 becomes 0xF, 0 to 15 stay. */
  lemma {:induction false} NibbleOfIndex(k: int)
    ensures k == -1 ==> k % 16 == 15
    ensures 0 <= k < 16 ==> k % 16 == k
  {
  }

  /**
   * The two generations disagree on a transparent pixel: a fully
   * transparent black tile over the palette [transparent, black] is all
   * colour 0 for the newer encoder and all colour 1 for the older one,
   * which looks transparent black up as the word 0x8000.
   */
  lemma {:induction false} GenerationsDisagreeOnTransparency()
    ensures var t := FreshTile([]).(palette := Some([TRANSPARENT16, BLACK16]));
            && UnpackSrom(EncodeSrom(t)) == seq(64, _ => 0)
            && UnpackSrom(EncodeSromLegacy(t)) == seq(64, _ => 1)
  {
    var t := FreshTile([]).(palette := Some([TRANSPARENT16, BLACK16]));
    BlackWord();
    assert ConvertTo16BitColor(TRANSPARENT_BLACK) == BLACK16;
    var px := SromPixels(t);
    assert forall i :: 0 <= i < 64 ==> px[i] == TRANSPARENT_BLACK;
    var ix := IndexedData(px, t.palette.value, false);
    var lx := LegacyIndexedData(px, t.palette.value);
    assert forall i :: 0 <= i < 64 ==> ix[i] == 0;
    assert forall i :: 0 <= i < 64 ==> lx[i] == 1;
    SromRoundTrip(ix);
    SromRoundTrip(lx);
  }

  /**
   * `setSROMBinaryData` on the tile in cell `i`: a tile without a palette
   * is an error; otherwise only its `sromBinaryData` is written.
   */
  method SetSromBinaryData(tiles: array<Option<Tile>>, i: nat) returns (outcome: Outcome)
    requires i < tiles.Length && tiles[i].Some?
    modifies tiles
    ensures old(tiles[i]).value.palette.None? ==>
              outcome == Fail(MissingPalette) && tiles[..] == old(tiles[..])
    ensures old(tiles[i]).value.palette.Some? ==>
              && outcome == Pass
              && tiles[..] == old(tiles[..])[i := Some(old(tiles[i]).value.(sromBinaryData := Some(EncodeSrom(old(tiles[i]).value))))]
  {
    var tile := tiles[i].value;
    if tile.palette.None? {
      return Fail(MissingPalette);
    }
    var ignoreDarkBit := tile.paletteIgnoresDarkBit == Some(true);
    var indexedData := GetIndexedData(SromPixels(tile), tile.palette.value, ignoreDarkBit);
    var data := ConvertToSromFormat(indexedData);
    tiles[i] := Some(tile.(sromBinaryData := Some(data)));
    return Pass;
  }

  /**
   * The older `toSROMTile`: a new record, the source's fields plus the
   * payload. Its input type carries the palette.
   */
  method ToSromTile(source: Tile) returns (tile: Tile)
    requires source.palette.Some?
    ensures tile == source.(sromBinaryData := Some(EncodeSromLegacy(source)))
  {
    var indexedData := GetLegacyIndexedData(SromPixels(source), source.palette.value);
    var data := ConvertToSromFormat(indexedData);
    tile := source.(sromBinaryData := Some(data));
  }
}
