/**
 * The sprite (CROM) tile encoder. A 16x16 tile is cut into four 8x8
 * corners, taken upper right, lower right, upper left, lower left. Every
 * pixel becomes a palette index, and each run of eight pixels becomes four
 * bit-plane bytes: bits 0 and 1 of the eight indices go to the odd stream,
 * bits 2 and 3 to the even stream. Each stream gets 16 bytes per corner,
 * 64 per tile.
 *
 * The newer encoder writes both streams into the tile record and checks
 * the palette first; the older one builds a new record and takes the
 * palette from its input type.
 */
module CromTile {
  import opened Wrappers
  import opened Color
  import opened Seqs
  import opened Tiles

  const CROM_TILE_SIZE_PX := 16
  const CROM_CORNER_BYTES := 16
  const CROM_STREAM_BYTES := 64

  /** The column at which corner `q` starts: the two right corners come first. */
  function CornerX(q: int): (x: int)
    requires 0 <= q < 4
  {
    if q < 2 then 8 else 0
  }

  /** The row at which corner `q` starts: upper, then lower, on each side. */
  function CornerY(q: int): (y: int)
    requires 0 <= q < 4
  {
    if q % 2 == 0 then 0 else 8
  }

  /** The corner holding pixel `(x, y)` of a 16x16 tile: the inverse of `CornerX`/`CornerY`. */
  function CornerOf(x: int, y: int): (q: int)
    requires 0 <= x < 16 && 0 <= y < 16
    ensures 0 <= q < 4 && CornerX(q) == x - x % 8 && CornerY(q) == y - y % 8
  {
    if x >= 8 then (if y < 8 then 0 else 1) else (if y < 8 then 2 else 3)
  }

  /** The 64 pixels `getImageData` reads for corner `q`, row-major. */
  function CornerPixels(t: Tile, q: int): (px: seq<Rgba>)
    requires 0 <= q < 4
    ensures |px| == 64
  {
    seq(64, i requires 0 <= i < 64 =>
      PixelAt(t.canvasSource, CROM_TILE_SIZE_PX, CornerX(q) + i % 8, CornerY(q) + i / 8))
  }

  /** A pixel has an index: it is fully transparent, or its colour word is in the palette. */
  predicate Indexable(c: Rgba, palette: seq<int>) {
    c.a == 0 || ConvertTo16BitColor(c) in palette
  }

  /**
   * The index of one pixel: 0 for a fully transparent pixel, otherwise the
   * first position of its colour word in the palette.
   */
  function CromPixelIndex(c: Rgba, palette: seq<int>): (k: nat)
    requires Indexable(c, palette)
    ensures c.a == 0 ==> k == 0
    ensures c.a != 0 ==> k < |palette| && palette[k] == ConvertTo16BitColor(c)
    ensures c.a != 0 ==> forall j :: 0 <= j < k ==> palette[j] != ConvertTo16BitColor(c)
  {
    if c.a == 0 then 0 else IndexOf(palette, ConvertTo16BitColor(c))
  }

  /** Every pixel of the sequence has an index. */
  predicate AllIndexable(pixels: seq<Rgba>, palette: seq<int>) {
    forall i :: 0 <= i < |pixels| ==> Indexable(pixels[i], palette)
  }

  /** `convertToIndexed` as a value: the indices of the pixels, or the error it throws. */
  function CornerIndices(pixels: seq<Rgba>, palette: seq<int>): (r: Result<seq<nat>>)
    ensures r.Err? <==> exists i :: 0 <= i < |pixels| && !Indexable(pixels[i], palette)
    ensures r.Err? ==> r.error == ColorNotInPalette
    ensures r.Ok? ==> |r.value| == |pixels|
  {
    if AllIndexable(pixels, palette) then
      Ok(seq(|pixels|, i requires 0 <= i < |pixels| => CromPixelIndex(pixels[i], palette)))
    else Err(ColorNotInPalette)
  }

  /** `convertToIndexed`: the push loop, throwing at the first colour missing from the palette. */
  method ConvertToIndexed(pixels: seq<Rgba>, palette: seq<int>) returns (r: Result<seq<nat>>)
    ensures r == CornerIndices(pixels, palette)
  {
    var indexed: seq<nat> := [];
    var i := 0;
    while i < |pixels|
      invariant 0 <= i <= |pixels|
      invariant AllIndexable(pixels[..i], palette)
      invariant indexed == seq(i, j requires 0 <= j < i => CromPixelIndex(pixels[j], palette))
    {
      var color24 := pixels[i];
      var color16 := ConvertTo16BitColor(color24);
      var index := if color24.a == 0 then 0 else IndexOf(palette, color16);
      if index < 0 {
        assert !Indexable(pixels[i], palette);
        return Err(ColorNotInPalette);
      }
      assert pixels[..i + 1] == pixels[..i] + [pixels[i]];
      indexed := indexed + [index];
      i := i + 1;
    }
    assert pixels[..i] == pixels;
    return Ok(indexed);
  }

  /** `(v >> k) & 1` for a non-negative `v`: bit `k` of `v`. */
  function Bit(v: nat, k: nat): (b: nat)
    ensures b < 2
  {
    if k == 0 then v % 2 else Bit(v / 2, k - 1)
  }

  function Pow2(n: nat): (p: nat)
    ensures p >= 1
  {
    if n == 0 then 1 else 2 * Pow2(n - 1)
  }

  /** An index below 16 is its four low bits, weighted 1, 2, 4 and 8. */
  lemma {:induction false} NibbleBits(v: nat)
    requires v < 16
    ensures v == Bit(v, 0) + 2 * Bit(v, 1) + 4 * Bit(v, 2) + 8 * Bit(v, 3)
  {
    var a := v / 2;
    var b := a / 2;
    var c := b / 2;
    assert Bit(v, 1) == a % 2;
    assert Bit(v, 2) == b % 2 by { assert Bit(v, 2) == Bit(a, 1) == Bit(b, 0); }
    assert Bit(v, 3) == c % 2 by { assert Bit(v, 3) == Bit(a, 2) == Bit(b, 1) == Bit(c, 0); }
    assert v == 2 * a + v % 2 && a == 2 * b + a % 2 && b == 2 * c + b % 2;
    assert c < 2;
  }

  /**
   * The byte whose bit `p` is bit `k` of `run[p]`, built up from bit 0 (the
   * accumulated or of `((run[p] >> k) & 1) << p`).
   */
  function PlaneByte(run: seq<nat>, k: nat): nat {
    if |run| == 0 then 0 else Bit(run[0], k) + 2 * PlaneByte(run[1..], k)
  }

  /** Bit `p` of a plane byte is bit `k` of the `p`-th index of its run. */
  lemma {:induction false} PlaneByteBit(run: seq<nat>, k: nat, p: nat)
    requires p < |run|
    ensures Bit(PlaneByte(run, k), p) == Bit(run[p], k)
  {
    if p > 0 {
      var rest := PlaneByte(run[1..], k);
      assert PlaneByte(run, k) / 2 == rest;
      PlaneByteBit(run[1..], k, p - 1);
    }
  }

  /** A plane byte of `n` indices fits in `n` bits. */
  lemma {:induction false} PlaneByteBound(run: seq<nat>, k: nat)
    ensures PlaneByte(run, k) < Pow2(|run|)
  {
    if |run| > 0 {
      PlaneByteBound(run[1..], k);
    }
  }

  /** Setting bit `|s|` of a plane byte: the or adds `2^|s|` exactly when the bit is 1. */
  lemma {:induction false} PlaneByteSnoc(s: seq<nat>, v: nat, k: nat)
    ensures PlaneByte(s + [v], k) == PlaneByte(s, k) + (if Bit(v, k) == 1 then Pow2(|s|) else 0)
  {
    if |s| > 0 {
      assert (s + [v])[1..] == s[1..] + [v];
      PlaneByteSnoc(s[1..], v, k);
    } else {
      assert (s + [v])[1..] == [];
    }
  }

  /**
   * `getBytesForIndexedCorner` as a value: the first run of eight indices
   * gives a byte of their bit `planeOffset` and a byte of their bit
   * `planeOffset + 1`, followed by the bytes of the remaining runs.
   */
  function CornerBytes(corner: seq<nat>, planeOffset: nat): (bytes: seq<nat>)
    requires |corner| % 8 == 0
    ensures |bytes| == |corner| / 4
  {
    if |corner| == 0 then []
    else [PlaneByte(corner[..8], planeOffset), PlaneByte(corner[..8], planeOffset + 1)]
         + CornerBytes(corner[8..], planeOffset)
  }

  /** Bytes `2r` and `2r + 1` are the two plane bytes of the `r`-th run of eight. */
  lemma {:induction false} CornerBytesAt(corner: seq<nat>, planeOffset: nat, r: nat)
    requires |corner| % 8 == 0 && 8 * r + 8 <= |corner|
    ensures CornerBytes(corner, planeOffset)[2 * r] == PlaneByte(corner[8 * r .. 8 * r + 8], planeOffset)
    ensures CornerBytes(corner, planeOffset)[2 * r + 1] == PlaneByte(corner[8 * r .. 8 * r + 8], planeOffset + 1)
  {
    var rest := corner[8..];
    var head := [PlaneByte(corner[..8], planeOffset), PlaneByte(corner[..8], planeOffset + 1)];
    assert CornerBytes(corner, planeOffset) == head + CornerBytes(rest, planeOffset);
    if r > 0 {
      CornerBytesAt(rest, planeOffset, r - 1);
      assert rest[8 * (r - 1) .. 8 * (r - 1) + 8] == corner[8 * r .. 8 * r + 8];
    } else {
      assert corner[8 * r .. 8 * r + 8] == corner[..8];
    }
  }

  /**
   * `getBytesForIndexedCorner`: for each run, an inner loop ors the bits of
   * its eight indices into two bytes, which are then pushed.
   */
  method GetBytesForIndexedCorner(corner: seq<nat>, planeOffset: nat) returns (planeBytes: seq<nat>)
    requires |corner| % 8 == 0
    ensures planeBytes == CornerBytes(corner, planeOffset)
  {
    planeBytes := [];
    var i := 0;
    while i < |corner|
      invariant 0 <= i <= |corner| && (|corner| - i) % 8 == 0
      invariant planeBytes + CornerBytes(corner[i..], planeOffset) == CornerBytes(corner, planeOffset)
    {
      CornerStep(corner, i, planeOffset);
      var run := corner[i .. i + 8];
      var firstPlaneByte, secondPlaneByte := 0, 0;
      for p := 0 to 8
        invariant firstPlaneByte == PlaneByte(run[..p], planeOffset)
        invariant secondPlaneByte == PlaneByte(run[..p], planeOffset + 1)
      {
        var indexedValue := run[p];
        RunStep(run, p, planeOffset);
        if Bit(indexedValue, planeOffset) == 1 {
          firstPlaneByte := firstPlaneByte + Pow2(p);
        }
        if Bit(indexedValue, planeOffset + 1) == 1 {
          secondPlaneByte := secondPlaneByte + Pow2(p);
        }
      }
      assert run[..8] == run;
      ghost var rest := CornerBytes(corner[i + 8..], planeOffset);
      assert (planeBytes + [firstPlaneByte, secondPlaneByte]) + rest == planeBytes + ([firstPlaneByte, secondPlaneByte] + rest);
      planeBytes := planeBytes + [firstPlaneByte, secondPlaneByte];
      i := i + 8;
    }
  }

  /** One pass of the inner loop: index `p` of the run sets bit `p` of both plane bytes. */
  lemma {:induction false} RunStep(run: seq<nat>, p: nat, planeOffset: nat)
    requires p < |run|
    ensures PlaneByte(run[..p + 1], planeOffset)
            == PlaneByte(run[..p], planeOffset) + (if Bit(run[p], planeOffset) == 1 then Pow2(p) else 0)
    ensures PlaneByte(run[..p + 1], planeOffset + 1)
            == PlaneByte(run[..p], planeOffset + 1) + (if Bit(run[p], planeOffset + 1) == 1 then Pow2(p) else 0)
  {
    assert run[..p + 1] == run[..p] + [run[p]];
    PlaneByteSnoc(run[..p], run[p], planeOffset);
    PlaneByteSnoc(run[..p], run[p], planeOffset + 1);
  }

  /** One pass of the outer loop: the run at `i` contributes the next two bytes. */
  lemma {:induction false} CornerStep(corner: seq<nat>, i: nat, planeOffset: nat)
    requires i < |corner| && (|corner| - i) % 8 == 0
    ensures i + 8 <= |corner| && (|corner| - (i + 8)) % 8 == 0
    ensures CornerBytes(corner[i..], planeOffset)
            == [PlaneByte(corner[i .. i + 8], planeOffset), PlaneByte(corner[i .. i + 8], planeOffset + 1)]
               + CornerBytes(corner[i + 8..], planeOffset)
  {
    assert corner[i..][..8] == corner[i .. i + 8];
    assert corner[i..][8..] == corner[i + 8..];
  }

  /** `getBytesForIndexedCorners`: the corners' plane bytes concatenated by `reduce`, in corner order. */
  function CornersBytes(corners: seq<seq<nat>>, planeOffset: nat): (bytes: seq<nat>)
    requires forall q :: 0 <= q < |corners| ==> |corners[q]| == 64
    ensures |bytes| == CROM_CORNER_BYTES * |corners|
  {
    if |corners| == 0 then []
    else CornersBytes(corners[..|corners| - 1], planeOffset) + CornerBytes(corners[|corners| - 1], planeOffset)
  }

  /** Byte `j` of corner `q`'s plane bytes is byte `16q + j` of the stream. */
  lemma {:induction false} CornersBytesAt(corners: seq<seq<nat>>, planeOffset: nat, q: int, j: int)
    requires forall c :: 0 <= c < |corners| ==> |corners[c]| == 64
    requires 0 <= q < |corners| && 0 <= j < CROM_CORNER_BYTES
    ensures CornersBytes(corners, planeOffset)[16 * q + j] == CornerBytes(corners[q], planeOffset)[j]
  {
    var n := |corners| - 1;
    if q < n {
      CornersBytesAt(corners[..n], planeOffset, q, j);
    }
  }

  /** The four corners' indices, or the error of the first corner that has a colour missing from the palette. */
  function TileIndices(t: Tile, palette: seq<int>): (r: Result<seq<seq<nat>>>)
    ensures r.Err? <==> exists q, i :: 0 <= q < 4 && 0 <= i < 64 && !Indexable(CornerPixels(t, q)[i], palette)
    ensures r.Err? ==> r.error == ColorNotInPalette
    ensures r.Ok? ==> |r.value| == 4 && forall q :: 0 <= q < 4 ==> r.value[q] == CornerIndices(CornerPixels(t, q), palette).value
  {
    if forall q :: 0 <= q < 4 ==> CornerIndices(CornerPixels(t, q), palette).Ok? then
      Ok(seq(4, q requires 0 <= q < 4 => CornerIndices(CornerPixels(t, q), palette).value))
    else Err(ColorNotInPalette)
  }

  /** Both 64-byte streams of a tile, or the error indexing it throws. */
  function EncodeCrom(t: Tile, palette: seq<int>): (r: Result<CromData>)
    ensures r.Err? <==> TileIndices(t, palette).Err?
    ensures r.Ok? ==> |r.value.cOddData| == CROM_STREAM_BYTES && |r.value.cEvenData| == CROM_STREAM_BYTES
  {
    match TileIndices(t, palette)
    case Err(e) => Err(e)
    case Ok(corners) => Ok(CromData(cEvenData := CornersBytes(corners, 2), cOddData := CornersBytes(corners, 0)))
  }

  lemma {:induction false} Pow2Eight()
    ensures Pow2(8) == 256
  {
    assert Pow2(1) == 2 && Pow2(2) == 4 && Pow2(3) == 8 && Pow2(4) == 16;
    assert Pow2(5) == 32 && Pow2(6) == 64 && Pow2(7) == 128;
  }

  /** Every plane byte of a corner is below 256. */
  lemma {:induction false} CornerBytesBound(corner: seq<nat>, planeOffset: nat, j: nat)
    requires |corner| % 8 == 0 && j < |corner| / 4
    ensures CornerBytes(corner, planeOffset)[j] < 256
  {
    if j < 2 {
      Pow2Eight();
      PlaneByteBound(corner[..8], planeOffset);
      PlaneByteBound(corner[..8], planeOffset + 1);
    } else {
      CornerBytesBound(corner[8..], planeOffset, j - 2);
    }
  }

  /** Every byte the encoder writes is below 256. */
  lemma {:induction false} EncodeCromBytes(t: Tile, palette: seq<int>, j: int)
    requires EncodeCrom(t, palette).Ok? && 0 <= j < CROM_STREAM_BYTES
    ensures EncodeCrom(t, palette).value.cOddData[j] < 256
    ensures EncodeCrom(t, palette).value.cEvenData[j] < 256
  {
    var corners := TileIndices(t, palette).value;
    var q, b := j / 16, j % 16;
    assert 16 * q + b == j;
    CornersBytesAt(corners, 0, q, b);
    CornersBytesAt(corners, 2, q, b);
    CornerBytesBound(corners[q], 0, b);
    CornerBytesBound(corners[q], 2, b);
  }

  /**
   * Reads the indices back out of the two streams: pixel `8r + p` of corner
   * `q` is bit `p` of the four bytes of run `r`, weighted 1, 2, 4 and 8.
   */
  function DecodeCrom(odd: seq<nat>, even: seq<nat>): (corners: seq<seq<nat>>)
    requires |odd| == CROM_STREAM_BYTES && |even| == CROM_STREAM_BYTES
    ensures |corners| == 4 && forall q :: 0 <= q < 4 ==> |corners[q]| == 64
  {
    seq(4, q requires 0 <= q < 4 => seq(64, i requires 0 <= i < 64 =>
      var j := 16 * q + 2 * (i / 8);
      Bit(odd[j], i % 8) + 2 * Bit(odd[j + 1], i % 8) + 4 * Bit(even[j], i % 8) + 8 * Bit(even[j + 1], i % 8)))
  }

  /** Bit `p` of the two stream bytes of run `r` of corner `q` are bits of index `8r + p`. */
  lemma {:induction false} StreamBits(corners: seq<seq<nat>>, planeOffset: nat, q: int, r: nat, p: nat)
    requires forall c :: 0 <= c < |corners| ==> |corners[c]| == 64
    requires 0 <= q < |corners| && r < 8 && p < 8
    ensures Bit(CornersBytes(corners, planeOffset)[16 * q + 2 * r], p) == Bit(corners[q][8 * r + p], planeOffset)
    ensures Bit(CornersBytes(corners, planeOffset)[16 * q + 2 * r + 1], p) == Bit(corners[q][8 * r + p], planeOffset + 1)
  {
    var run := corners[q][8 * r .. 8 * r + 8];
    CornersBytesAt(corners, planeOffset, q, 2 * r);
    CornersBytesAt(corners, planeOffset, q, 2 * r + 1);
    CornerBytesAt(corners[q], planeOffset, r);
    PlaneByteBit(run, planeOffset, p);
    PlaneByteBit(run, planeOffset + 1, p);
  }

  /** An index below 16 is rebuilt from the four bit-plane bytes of its run. */
  lemma {:induction false} CromRoundTripAt(corners: seq<seq<nat>>, q: int, i: int)
    requires |corners| == 4 && forall c :: 0 <= c < 4 ==> |corners[c]| == 64
    requires 0 <= q < 4 && 0 <= i < 64 && corners[q][i] < 16
    ensures DecodeCrom(CornersBytes(corners, 0), CornersBytes(corners, 2))[q][i] == corners[q][i]
  {
    var r, p := i / 8, i % 8;
    assert i == 8 * r + p;
    StreamBits(corners, 0, q, r, p);
    StreamBits(corners, 2, q, r, p);
    NibbleBits(corners[q][i]);
  }

  /** For indices below 16, decoding the two streams is the identity. */
  lemma {:induction false} CromRoundTrip(corners: seq<seq<nat>>)
    requires |corners| == 4 && forall c :: 0 <= c < 4 ==> |corners[c]| == 64
    requires forall c, i :: 0 <= c < 4 && 0 <= i < 64 ==> corners[c][i] < 16
    ensures DecodeCrom(CornersBytes(corners, 0), CornersBytes(corners, 2)) == corners
  {
    var d := DecodeCrom(CornersBytes(corners, 0), CornersBytes(corners, 2));
    forall q | 0 <= q < 4
      ensures d[q] == corners[q]
    {
      forall i | 0 <= i < 64
        ensures d[q][i] == corners[q][i]
      {
        CromRoundTripAt(corners, q, i);
      }
    }
  }

  /** Pixel `(x, y)` of the tile is pixel `8 (y mod 8) + x mod 8` of its corner. */
  lemma {:induction false} CornerPixelAt(t: Tile, x: nat, y: nat)
    requires x < 16 && y < 16
    ensures CornerPixels(t, CornerOf(x, y))[(y % 8) * 8 + x % 8] == PixelAt(t.canvasSource, 16, x, y)
  {
    var i := (y % 8) * 8 + x % 8;
    assert i % 8 == x % 8 && i / 8 == y % 8;
  }

  /**
   * What the streams say about pixel `(x, y)`: encoding fails exactly when
   * some pixel is neither fully transparent nor in the palette; otherwise
   * a fully transparent pixel decodes as 0 and any other as its colour's
   * first palette position, when that position is below 16.
   */
  lemma {:induction false} EncodeCromPixel(t: Tile, palette: seq<int>, x: nat, y: nat)
    requires x < 16 && y < 16
    ensures !Indexable(PixelAt(t.canvasSource, 16, x, y), palette) ==> EncodeCrom(t, palette).Err?
    ensures EncodeCrom(t, palette).Ok? ==>
              var c := PixelAt(t.canvasSource, 16, x, y);
              var d := EncodeCrom(t, palette).value;
              var v := DecodeCrom(d.cOddData, d.cEvenData)[CornerOf(x, y)][(y % 8) * 8 + x % 8];
              && (c.a == 0 ==> v == 0)
              && (c.a != 0 && IndexOf(palette, ConvertTo16BitColor(c)) < 16 ==>
                    v == IndexOf(palette, ConvertTo16BitColor(c)) && palette[v] == ConvertTo16BitColor(c))
  {
    var q, i := CornerOf(x, y), (y % 8) * 8 + x % 8;
    CornerPixelAt(t, x, y);
    var c := PixelAt(t.canvasSource, 16, x, y);
    if !Indexable(c, palette) {
      assert !Indexable(CornerPixels(t, q)[i], palette);
    }
    if EncodeCrom(t, palette).Ok? {
      var corners := TileIndices(t, palette).value;
      assert corners[q][i] == CromPixelIndex(c, palette);
      if c.a == 0 || IndexOf(palette, ConvertTo16BitColor(c)) < 16 {
        CromRoundTripAt(corners, q, i);
      }
    }
  }

  /**
   * `setCROMBinaryData` on the tile in cell `i`: a tile without a palette
   * is an error, so is a colour missing from it; otherwise only its
   * `cromBinaryData` is written.
   */
  method SetCromBinaryData(tiles: array<Option<Tile>>, i: nat) returns (outcome: Outcome)
    requires i < tiles.Length && tiles[i].Some?
    modifies tiles
    ensures old(tiles[i]).value.palette.None? ==>
              outcome == Fail(MissingPalette) && tiles[..] == old(tiles[..])
    ensures old(tiles[i]).value.palette.Some? ==>
              var t := old(tiles[i]).value;
              match EncodeCrom(t, t.palette.value)
              case Err(e) => outcome == Fail(e) && tiles[..] == old(tiles[..])
              case Ok(d) => outcome == Pass && tiles[..] == old(tiles[..])[i := Some(t.(cromBinaryData := Some(d)))]
  {
    var tile := tiles[i].value;
    if tile.palette.None? {
      return Fail(MissingPalette);
    }
    var r := EncodeTile(tile, tile.palette.value);
    match r {
      case Err(e) =>
        return Fail(e);
      case Ok(d) =>
        tiles[i] := Some(tile.(cromBinaryData := Some(d)));
        return Pass;
    }
  }

  /** The older `toCROMTile`: a new record, the source's fields plus both streams. */
  method ToCromTile(source: Tile) returns (r: Result<Tile>)
    requires source.palette.Some?
    ensures r.Err? <==> EncodeCrom(source, source.palette.value).Err?
    ensures r.Err? ==> r.error == ColorNotInPalette
    ensures r.Ok? ==> r.value == source.(cromBinaryData := Some(EncodeCrom(source, source.palette.value).value))
  {
    var d := EncodeTile(source, source.palette.value);
    if d.Err? {
      return Err(d.error);
    }
    return Ok(source.(cromBinaryData := Some(d.value)));
  }

  /**
   * The steps both encoders share: index the four corners in order (the
   * `map` stops at the first corner that throws), then build the odd stream
   * from bit planes 0 and 1 and the even stream from bit planes 2 and 3.
   */
  method EncodeTile(t: Tile, palette: seq<int>) returns (r: Result<CromData>)
    ensures r == EncodeCrom(t, palette)
  {
    var i0 := ConvertToIndexed(CornerPixels(t, 0), palette);
    if i0.Err? { return Err(i0.error); }
    var i1 := ConvertToIndexed(CornerPixels(t, 1), palette);
    if i1.Err? { return Err(i1.error); }
    var i2 := ConvertToIndexed(CornerPixels(t, 2), palette);
    if i2.Err? { return Err(i2.error); }
    var i3 := ConvertToIndexed(CornerPixels(t, 3), palette);
    if i3.Err? { return Err(i3.error); }
    var indexedCorners := [i0.value, i1.value, i2.value, i3.value];
    assert indexedCorners == TileIndices(t, palette).value;
    var cOddData := CornersBytes(indexedCorners, 0);
    var cEvenData := CornersBytes(indexedCorners, 2);
    return Ok(CromData(cEvenData := cEvenData, cOddData := cOddData));
  }
}
