/**
 * The eyecatcher generator: the Neo Geo boot animation's fixed images.
 * Its main logo goes to the sprite ROM, up to four small images to the fix
 * ROM, and every one of their tiles sits at a slot the BIOS hard-codes.
 *
 * Loading an image is left out: an image is its size and pixels, and the
 * tile matrix cut from it is handed in next to it. Tiles live in an arena
 * (`array<Tile>`); a matrix cell is the arena index of its tile.
 */
module Eyecatcher {
  import opened Wrappers
  import opened Color
  import opened Seqs
  import opened Tiles
  import opened Palette24
  import CromTile
  import SromTile

  /** Sprite slots of the main logo; rows 0 and 3 are one tile short. */
  const MAIN_IMAGE_TILE_POSITIONS: seq<seq<int>> := [
    [0, 1, 2, 3, 4, 5, 6, 7, 8, 9, 10, 11, 12, 13],
    [14, 15, 16, 17, 18, 19, 20, 21, 22, 23, 24, 25, 26, 27, 28],
    [29, 30, 31, 32, 33, 34, 35, 36, 37, 38, 39, 40, 41, 42, 43],
    [44, 45, 46, 47, 48, 49, 50, 51, 52, 53, 54, 55, 56, 57]
  ]

  /** Fix slots of the "MAX 330 MEGA" image. */
  const MAX_330_MEGA_TILE_POSITIONS: seq<seq<int>> := [
    [0x05, 0x07, 0x09, 0x0b, 0x0d, 0x0f, 0x15, 0x17, 0x19, 0x1b, 0x1d, 0x1f, 0x5e, 0x60, 0x7d],
    [0x06, 0x08, 0x0a, 0x0c, 0x0e, 0x14, 0x16, 0x18, 0x1a, 0x1c, 0x1e, 0x40, 0x5f, 0x7c, 0x7e]
  ]

  /** Fix slots of the "PRO-GEAR SPEC" image; its fifth top tile lands on 0xff. */
  const PRO_GEAR_SPEC_TILE_POSITIONS: seq<seq<int>> := [
    [0x7f, 0x9a, 0x9c, 0x9e, 0xff, 0xbb, 0xbd, 0xbf, 0xda, 0xdc, 0xde, 0xfa, 0xfc, 0x100, 0x102, 0x104, 0x106],
    [0x99, 0x9b, 0x9d, 0x9f, 0xba, 0xbc, 0xbe, 0xd9, 0xdb, 0xdd, 0xdf, 0xfb, 0xfd, 0x101, 0x103, 0x105, 0x107]
  ]

  /** Fix slots of the company logo. */
  const COMPANY_LOGO_TILE_POSITIONS: seq<seq<int>> := [
    [0x200, 0x201, 0x202, 0x203, 0x204, 0x205, 0x206, 0x207, 0x208, 0x209],
    [0x20a, 0x20b, 0x20c, 0x20d, 0x20e, 0x20f, 0x214, 0x215, 0x216, 0x217],
    [0x218, 0x219, 0x21a, 0x21b, 0x21c, 0x21d, 0x21e, 0x21f, 0x240, 0x25e]
  ]

  /** Fix slot of the copyright character. */
  const COPYRIGHT_TILE_POSITIONS: seq<seq<int>> := [[0x7b]]

  /** An image size in pixels. */
  datatype Size = Size(width: int, height: int)

  const MAIN_IMAGE_SIZE_PX := Size(15 * CromTile.CROM_TILE_SIZE_PX, 4 * CromTile.CROM_TILE_SIZE_PX)
  const MAX_330_MEGA_SIZE_PX := Size(15 * SromTile.SROM_TILE_SIZE_PX, 2 * SromTile.SROM_TILE_SIZE_PX)
  const PRO_GEAR_SPEC_SIZE_PX := Size(17 * SromTile.SROM_TILE_SIZE_PX, 2 * SromTile.SROM_TILE_SIZE_PX)
  const COMPANY_LOGO_SIZE_PX := Size(10 * SromTile.SROM_TILE_SIZE_PX, 3 * SromTile.SROM_TILE_SIZE_PX)
  const COPYRIGHT_SIZE_PX := Size(SromTile.SROM_TILE_SIZE_PX, SromTile.SROM_TILE_SIZE_PX)

  /**
   * The eyecatcher's system palette in its final form. Entry 0 is the
   * transparent colour, so magenta pixels index to 0; entry 5 is the
   * company's blue.
   */
  const EYECATCHER_PALETTE: seq<int> := [
    TRANSPARENT16, 0x0fff, 0x0ddd, 0x0aaa, 0x7555, 0x306e,
    0x0000, 0x0000, 0x0000, 0x0000, 0x0000, 0x0000, 0x0000, 0x0000, 0x0000, 0x0000
  ]

  /** `Number.MAX_SAFE_INTEGER`: the priority that beats every other fix tile. */
  const MAX_SAFE_INTEGER := 9007199254740991

  /** The main-logo table read row by row is the slots 0 to 57 in order. */
  lemma {:induction false} MainTableRowMajor()
    ensures |MAIN_IMAGE_TILE_POSITIONS| == 4
    ensures |MAIN_IMAGE_TILE_POSITIONS[0]| == 14 && |MAIN_IMAGE_TILE_POSITIONS[1]| == 15
    ensures |MAIN_IMAGE_TILE_POSITIONS[2]| == 15 && |MAIN_IMAGE_TILE_POSITIONS[3]| == 14
    ensures Flatten(MAIN_IMAGE_TILE_POSITIONS) == seq(58, i => i)
  {
    var t := MAIN_IMAGE_TILE_POSITIONS;
    assert t[0] == seq(14, i => i);
    assert t[1] == seq(15, i => 14 + i);
    assert t[2] == seq(15, i => 29 + i);
    assert t[3] == seq(14, i => 44 + i);
    assert Flatten(t[3..]) == t[3] by {
      assert t[3..][1..] == [];
    }
    assert t[2..][1..] == t[3..];
    assert t[1..][1..] == t[2..];
    assert Flatten(t) == t[0] + (t[1] + (t[2] + t[3]));
  }

  /** The pro-gear-spec tile checked for blankness is the one placed at 0xff. */
  lemma {:induction false} ProGearTileAtFF()
    ensures PRO_GEAR_SPEC_TILE_POSITIONS[0][4] == 0xff
  {
  }

  /** The system palette has 16 entries, transparent first. */
  lemma {:induction false} EyecatcherPaletteShape()
    ensures |EYECATCHER_PALETTE| == 16 && EYECATCHER_PALETTE[0] == TRANSPARENT16
  {
  }

  /**
   * `matchesEyecatcherPalette`: every colour of the image's palette, its
   * dark bit ignored, is one of the system palette's.
   */
  function MatchesEyecatcherPalette(pixels: seq<Rgba>): bool {
    var palette16 := ConvertTo16BitPaletteIgnoreDarkBit(Palette24Of(pixels));
    forall k :: 0 <= k < |palette16| ==> palette16[k] in EYECATCHER_PALETTE
  }

  /**
   * Since the image's palette is its own colours plus magenta, and magenta
   * is the system palette's transparent entry, an image matches exactly
   * when every pixel's colour, dark bit ignored, is in the system palette.
   */
  lemma {:induction false} MatchesIffPixels(pixels: seq<Rgba>)
    ensures MatchesEyecatcherPalette(pixels)
        <==> (forall i :: 0 <= i < |pixels| ==> ConvertTo16BitColorIgnoreDarkBit(pixels[i]) in EYECATCHER_PALETTE)
  {
    var p := Palette24Of(pixels);
    var p16 := ConvertTo16BitPaletteIgnoreDarkBit(p);
    MagentaWord();
    assert ConvertTo16BitColorIgnoreDarkBit(MAGENTA24) == EYECATCHER_PALETTE[0];
    if MatchesEyecatcherPalette(pixels) {
      forall i | 0 <= i < |pixels|
        ensures ConvertTo16BitColorIgnoreDarkBit(pixels[i]) in EYECATCHER_PALETTE
      {
        assert pixels[i] in Elems(p);
        var k :| 0 <= k < |p| && p[k] == pixels[i];
        assert p16[k] in EYECATCHER_PALETTE;
      }
    }
    if forall i :: 0 <= i < |pixels| ==> ConvertTo16BitColorIgnoreDarkBit(pixels[i]) in EYECATCHER_PALETTE {
      forall k | 0 <= k < |p16|
        ensures p16[k] in EYECATCHER_PALETTE
      {
        assert p[k] in Elems(p);
        if p[k] != MAGENTA24 {
          assert p[k] in Elems(pixels);
          var i :| 0 <= i < |pixels| && pixels[i] == p[k];
        }
      }
    }
  }

  // ---------------------------------------------------------------------
  // The blank-tile test

  /**
   * A pixel the blank test accepts: fully transparent, or equal in all four
   * components to the comparison colour when there is one.
   */
  predicate BlankPixel(c: Rgba, magic: Option<Rgba>) {
    c.a == 0 || (magic.Some? && c == magic.value)
  }

  /**
   * `isTileBlank`'s loop: the pixels one at a time, stopping at the first
   * one that is neither transparent nor the comparison colour. `magic` is
   * the imported comparison colour; `None` is `undefined`, which lodash's
   * `isEqual` never finds equal to a pixel.
   */
  method TileBlankWalk(pixels: seq<Rgba>, magic: Option<Rgba>) returns (blank: bool)
    ensures blank <==> forall i :: 0 <= i < |pixels| ==> BlankPixel(pixels[i], magic)
  {
    for p := 0 to |pixels|
      invariant forall i :: 0 <= i < p ==> BlankPixel(pixels[i], magic)
    {
      var color := pixels[p];
      if color.a != 0 && !(magic.Some? && color == magic.value) {
        return false;
      }
    }
    return true;
  }

  /** A tile every pixel of which is transparent or opaque magenta. */
  predicate TileBlank(t: Tile) {
    forall i :: 0 <= i < |t.canvasSource| ==> t.canvasSource[i].a == 0 || t.canvasSource[i] == MAGENTA24
  }

  /**
   * `isTileBlank` as written: the comparison colour it imports is not
   * exported by the colour module, so it is `undefined` and only fully
   * transparent pixels count as blank.
   */
  method IsTileBlankAsWritten(t: Tile) returns (blank: bool)
    ensures blank <==> forall i :: 0 <= i < |t.canvasSource| ==> t.canvasSource[i].a == 0
  {
    blank := TileBlankWalk(t.canvasSource, None);
  }

  /**
   * As written, a tile drawn entirely in opaque magenta, which the error
   * messages call blank, is refused; as intended it is accepted.
   */
  lemma {:induction false} AsWrittenRefusesMagenta(t: Tile)
    requires |t.canvasSource| > 0
    requires forall i :: 0 <= i < |t.canvasSource| ==> t.canvasSource[i] == MAGENTA24
    ensures !(forall i :: 0 <= i < |t.canvasSource| ==> BlankPixel(t.canvasSource[i], None))
    ensures forall i :: 0 <= i < |t.canvasSource| ==> BlankPixel(t.canvasSource[i], Some(MAGENTA24))
    ensures TileBlank(t)
  {
    assert !BlankPixel(t.canvasSource[0], None);
  }

  /**
   * `isTileBlank` as intended, comparing against opaque magenta: true
   * exactly when every pixel is fully transparent or opaque magenta. The
   * rest of the model uses this one.
   */
  method IsTileBlank(t: Tile) returns (blank: bool)
    ensures blank <==> TileBlank(t)
  {
    blank := TileBlankWalk(t.canvasSource, Some(MAGENTA24));
  }

  // ---------------------------------------------------------------------
  // Tile flags

  /**
   * The flags every eyecatcher tile gets: the system palette, which is not
   * emitted, looked up without the dark bit; fix-layer tiles also get the
   * highest priority so they win every slot they share.
   */
  function Flagged(t: Tile, withPriority: bool): Tile {
    t.(palette := Some(EYECATCHER_PALETTE), emitPalette := Some(false), paletteIgnoresDarkBit := Some(true),
       priority := if withPriority then Some(MAX_SAFE_INTEGER) else t.priority)
  }

  /** Flagging changes the four flag fields and nothing else. */
  lemma {:induction false} FlaggedFields(t: Tile, withPriority: bool)
    ensures Flagged(t, withPriority).palette == Some(EYECATCHER_PALETTE)
    ensures Flagged(t, withPriority).emitPalette == Some(false)
    ensures Flagged(t, withPriority).paletteIgnoresDarkBit == Some(true)
    ensures Flagged(t, withPriority).priority == (if withPriority then Some(MAX_SAFE_INTEGER) else t.priority)
    ensures Flagged(t, withPriority).(palette := t.palette, emitPalette := t.emitPalette,
              paletteIgnoresDarkBit := t.paletteIgnoresDarkBit, priority := t.priority) == t
  {
  }

  /** Every non-empty cell of a matrix names an arena tile. */
  predicate InArena(tiles: Matrix, n: nat) {
    forall r, c :: 0 <= r < |tiles| && 0 <= c < |tiles[r]| && tiles[r][c].Some? ==> tiles[r][c].value < n
  }

  /** The two nested `forEach`s that flag every tile of a matrix, nulls skipped. */
  method FlagTiles(arena: array<Tile>, tiles: Matrix, withPriority: bool)
    requires InArena(tiles, arena.Length)
    modifies arena
    ensures forall i :: 0 <= i < arena.Length ==>
              arena[i] == (if i in RowVisits(tiles) then Flagged(old(arena[i]), withPriority) else old(arena[i]))
  {
    ghost var a := arena[..];
    for y := 0 to |tiles|
      invariant forall i :: 0 <= i < arena.Length ==>
                  arena[i] == (if i in RowVisits(tiles[..y]) then Flagged(a[i], withPriority) else a[i])
    {
      assert forall c :: 0 <= c < |tiles[y]| && tiles[y][c].Some? ==> tiles[y][c].value < arena.Length;
      FlagRow(arena, tiles[y], withPriority);
      RowVisitsSnoc(tiles, y);
    }
    assert tiles[..|tiles|] == tiles;
  }

  method FlagRow(arena: array<Tile>, row: seq<Option<nat>>, withPriority: bool)
    requires forall c :: 0 <= c < |row| && row[c].Some? ==> row[c].value < arena.Length
    modifies arena
    ensures forall i :: 0 <= i < arena.Length ==>
              arena[i] == (if i in CellVisits(row) then Flagged(old(arena[i]), withPriority) else old(arena[i]))
  {
    ghost var a := arena[..];
    for x := 0 to |row|
      invariant forall i :: 0 <= i < arena.Length ==>
                  arena[i] == (if i in CellVisits(row[..x]) then Flagged(a[i], withPriority) else a[i])
    {
      CellVisitsSnoc(row, x);
      if row[x].Some? {
        var v := row[x].value;
        arena[v] := Flagged(arena[v], withPriority);
      }
    }
    assert row[..|row|] == row;
  }

  // ---------------------------------------------------------------------
  // Sources

  /** A loaded image: its size and its pixels, row-major. */
  datatype Image = Image(width: nat, height: nat, pixels: seq<Rgba>)

  /**
   * What extracting `px`-sized tiles from an image yields: one row per
   * started band of `px` pixel rows, one fresh tile per started column
   * band in each.
   */
  predicate Extracted(tiles: Matrix, image: Image, px: nat)
    requires px > 0
  {
    |tiles| == (image.height + px - 1) / px
    && forall r :: 0 <= r < |tiles| ==>
         |tiles[r]| == (image.width + px - 1) / px && forall c :: 0 <= c < |tiles[r]| ==> tiles[r][c].Some?
  }

  /** The first check an eyecatcher image fails: its size, then its colours. */
  function ImageError(image: Image, expected: Size): Option<Error> {
    if image.width != expected.width || image.height != expected.height then Some(WrongImageSize)
    else if !MatchesEyecatcherPalette(image.pixels) then Some(NotEyecatcherPalette)
    else None
  }

  /**
   * `getSROMSource`: checks the image, then flags every tile of its matrix
   * with the system palette and the highest priority.
   */
  method GetSromSource(arena: array<Tile>, image: Image, expected: Size, tiles: Matrix) returns (r: Result<Matrix>)
    requires InArena(tiles, arena.Length)
    modifies arena
    ensures ImageError(image, expected).Some? ==> r == Err(ImageError(image, expected).value) && arena[..] == old(arena[..])
    ensures ImageError(image, expected).None? ==> r == Ok(tiles)
    ensures ImageError(image, expected).None? ==> forall i :: 0 <= i < arena.Length ==>
              arena[i] == (if i in RowVisits(tiles) then Flagged(old(arena[i]), true) else old(arena[i]))
  {
    if image.width != expected.width || image.height != expected.height {
      return Err(WrongImageSize);
    }
    if !MatchesEyecatcherPalette(image.pixels) {
      return Err(NotEyecatcherPalette);
    }
    FlagTiles(arena, tiles, true);
    r := Ok(tiles);
  }

  /** The main logo's matrix with the last tile of rows 0 and 3 spliced out. */
  function MainTiles(tiles: Matrix): Matrix
    requires |tiles| == 4
  {
    tiles[0 := JsSplice(tiles[0], 14, 1, [])][3 := JsSplice(tiles[3], 14, 1, [])]
  }

  /**
   * With the two corners removed, the main logo has exactly the shape of
   * its slot table, so every remaining tile gets a slot.
   */
  lemma {:induction false} MainTilesMatchTable(tiles: Matrix)
    requires |tiles| == 4 && forall r :: 0 <= r < 4 ==> |tiles[r]| == 15
    ensures |MainTiles(tiles)| == |MAIN_IMAGE_TILE_POSITIONS|
    ensures forall r :: 0 <= r < 4 ==> |MainTiles(tiles)[r]| == |MAIN_IMAGE_TILE_POSITIONS[r]|
    ensures MainTiles(tiles)[0] == tiles[0][..14] && MainTiles(tiles)[3] == tiles[3][..14]
    ensures MainTiles(tiles)[1] == tiles[1] && MainTiles(tiles)[2] == tiles[2]
  {
    MainTableRowMajor();
    assert JsSplice(tiles[0], 14, 1, []) == tiles[0][..14];
    assert JsSplice(tiles[3], 14, 1, []) == tiles[3][..14];
  }

  /** The first check the main logo fails: size, colours, then its two discarded corners. */
  function MainLogoError(a: seq<Tile>, image: Image, tiles: Matrix): Option<Error>
    requires Extracted(tiles, image, 16) && InArena(tiles, |a|)
  {
    if ImageError(image, MAIN_IMAGE_SIZE_PX).Some? then ImageError(image, MAIN_IMAGE_SIZE_PX)
    else if !TileBlank(a[tiles[0][14].value]) then Some(CornerNotBlank)
    else if !TileBlank(a[tiles[3][14].value]) then Some(CornerNotBlank)
    else None
  }

  /**
   * The eyecatcher's `getCROMSources`: checks the main logo, removes its
   * upper and lower right corner tiles, which must be blank, and flags the
   * rest with the system palette (no priority: sprite slots never clash).
   */
  method GetCromSources(arena: array<Tile>, image: Image, tiles: Matrix) returns (r: Result<seq<Matrix>>)
    requires Extracted(tiles, image, 16) && InArena(tiles, arena.Length)
    modifies arena
    ensures MainLogoError(old(arena[..]), image, tiles).Some? ==>
              r == Err(MainLogoError(old(arena[..]), image, tiles).value) && arena[..] == old(arena[..])
    ensures MainLogoError(old(arena[..]), image, tiles).None? ==> |tiles| == 4 && r == Ok([MainTiles(tiles)])
    ensures MainLogoError(old(arena[..]), image, tiles).None? ==> |tiles| == 4 && forall i :: 0 <= i < arena.Length ==>
              arena[i] == (if i in RowVisits(MainTiles(tiles)) then Flagged(old(arena[i]), false) else old(arena[i]))
  {
    if image.width != MAIN_IMAGE_SIZE_PX.width || image.height != MAIN_IMAGE_SIZE_PX.height {
      return Err(WrongImageSize);
    }
    if !MatchesEyecatcherPalette(image.pixels) {
      return Err(NotEyecatcherPalette);
    }
    assert |tiles| == 4 && |tiles[0]| == 15 && |tiles[3]| == 15;
    var upperRightCorner := tiles[0][14].value;
    var lowerRightCorner := tiles[3][14].value;
    var cromTileSources := MainTiles(tiles);
    var upperBlank := IsTileBlank(arena[upperRightCorner]);
    if !upperBlank {
      return Err(CornerNotBlank);
    }
    var lowerBlank := IsTileBlank(arena[lowerRightCorner]);
    if !lowerBlank {
      return Err(CornerNotBlank);
    }
    assert InArena(cromTileSources, arena.Length) by {
      forall rr, c | 0 <= rr < |cromTileSources| && 0 <= c < |cromTileSources[rr]| && cromTileSources[rr][c].Some?
        ensures cromTileSources[rr][c].value < arena.Length
      {
        MainTilesMatchTable(tiles);
        assert cromTileSources[rr][c] == tiles[rr][c];
      }
    }
    FlagTiles(arena, cromTileSources, false);
    r := Ok([cromTileSources]);
  }

  /** A fix-layer image named in the eyecatcher's input, with what loading it yields. */
  datatype SromFile = SromFile(name: string, image: Image, tiles: Matrix)

  /** The fix-layer part of the eyecatcher's input; every file is optional. */
  datatype EyecatcherFiles = EyecatcherFiles(
    max330Mega: Option<SromFile>,
    proGearSpec: Option<SromFile>,
    snkLogo: Option<SromFile>,
    copyrightCharacter: Option<SromFile>)

  /** One element of `getSROMSources`' result: a matrix and the file it came from. */
  datatype SourceResult = SourceResult(tiles: Matrix, input: string)

  /** A file that is given and whose name is not the empty string (which JavaScript treats as false). */
  predicate Given(f: Option<SromFile>) {
    f.Some? && f.value.name != ""
  }

  /** Every file's matrix is what loading yields and names arena tiles. */
  predicate FilesLoaded(files: EyecatcherFiles, n: nat) {
    (files.max330Mega.Some? ==> Extracted(files.max330Mega.value.tiles, files.max330Mega.value.image, 8) && InArena(files.max330Mega.value.tiles, n))
    && (files.proGearSpec.Some? ==> Extracted(files.proGearSpec.value.tiles, files.proGearSpec.value.image, 8) && InArena(files.proGearSpec.value.tiles, n))
    && (files.snkLogo.Some? ==> Extracted(files.snkLogo.value.tiles, files.snkLogo.value.image, 8) && InArena(files.snkLogo.value.tiles, n))
    && (files.copyrightCharacter.Some? ==> Extracted(files.copyrightCharacter.value.tiles, files.copyrightCharacter.value.image, 8) && InArena(files.copyrightCharacter.value.tiles, n))
  }

  /** The check a given file fails, if any. */
  function FileError(f: Option<SromFile>, expected: Size): Option<Error> {
    if Given(f) then ImageError(f.value.image, expected) else None
  }

  /**
   * The first error `getSROMSources` meets: the files in input order, and
   * right after the pro-gear-spec image's own checks, its tile at (32, 0),
   * which lands on slot 0xff and must be blank.
   */
  function SromSourcesError(a: seq<Tile>, files: EyecatcherFiles): Option<Error>
    requires FilesLoaded(files, |a|)
  {
    if FileError(files.max330Mega, MAX_330_MEGA_SIZE_PX).Some? then FileError(files.max330Mega, MAX_330_MEGA_SIZE_PX)
    else if ProGearError(a, files.proGearSpec).Some? then ProGearError(a, files.proGearSpec)
    else if FileError(files.snkLogo, COMPANY_LOGO_SIZE_PX).Some? then FileError(files.snkLogo, COMPANY_LOGO_SIZE_PX)
    else FileError(files.copyrightCharacter, COPYRIGHT_SIZE_PX)
  }

  /** The result entry a given file contributes. */
  function Entry(f: Option<SromFile>): seq<SourceResult> {
    if Given(f) then [SourceResult(f.value.tiles, f.value.name)] else []
  }

  /** The result list of a successful `getSROMSources`: the given files in input order. */
  function SromSources(files: EyecatcherFiles): seq<SourceResult> {
    Entry(files.max330Mega) + Entry(files.proGearSpec) + Entry(files.snkLogo) + Entry(files.copyrightCharacter)
  }

  /** The tiles of a given file's matrix. */
  function FileCells(f: Option<SromFile>): seq<nat> {
    if Given(f) then RowVisits(f.value.tiles) else []
  }

  /** Every tile `getSROMSources` flags. */
  function SromCells(files: EyecatcherFiles): seq<nat> {
    FileCells(files.max330Mega) + FileCells(files.proGearSpec) + FileCells(files.snkLogo) + FileCells(files.copyrightCharacter)
  }

  /** `after` is `before` with exactly the tiles in `cells` flagged for the fix layer. */
  predicate FlaggedOver(before: seq<Tile>, after: seq<Tile>, cells: seq<nat>) {
    |after| == |before|
    && forall i :: 0 <= i < |before| ==> after[i] == (if i in cells then Flagged(before[i], true) else before[i])
  }

  /** Flagging one set of tiles and then another flags both: flagging twice is flagging once. */
  lemma {:induction false} FlaggedOverAppend(a: seq<Tile>, b: seq<Tile>, c: seq<Tile>, xs: seq<nat>, ys: seq<nat>)
    requires FlaggedOver(a, b, xs) && FlaggedOver(b, c, ys)
    ensures FlaggedOver(a, c, xs + ys)
  {
    forall i | 0 <= i < |a|
      ensures c[i] == (if i in xs + ys then Flagged(a[i], true) else a[i])
    {
      assert i in xs + ys <==> i in xs || i in ys;
    }
  }

  /** Flagging leaves every tile's image as it was. */
  lemma {:induction false} FlaggedOverPixels(a: seq<Tile>, b: seq<Tile>, cells: seq<nat>, i: int)
    requires FlaggedOver(a, b, cells) && 0 <= i < |a|
    ensures b[i].canvasSource == a[i].canvasSource
  {
  }

  /** One optional file of `getSROMSources`: skipped, or checked, flagged and appended. */
  method AddSromSource(arena: array<Tile>, f: Option<SromFile>, expected: Size, sources: seq<SourceResult>)
    returns (r: Result<seq<SourceResult>>)
    requires f.Some? ==> InArena(f.value.tiles, arena.Length)
    modifies arena
    ensures FileError(f, expected).Some? ==> r == Err(FileError(f, expected).value)
    ensures FileError(f, expected).None? ==> r == Ok(sources + Entry(f)) && FlaggedOver(old(arena[..]), arena[..], FileCells(f))
  {
    if !Given(f) {
      assert sources + [] == sources;
      return Ok(sources);
    }
    var s := GetSromSource(arena, f.value.image, expected, f.value.tiles);
    if s.Err? {
      return Err(s.error);
    }
    r := Ok(sources + [SourceResult(s.value, f.value.name)]);
  }

  /** The pro-gear-spec file's checks: its image's, then the blankness of the tile at 0xff. */
  function ProGearError(a: seq<Tile>, f: Option<SromFile>): Option<Error>
    requires f.Some? ==> Extracted(f.value.tiles, f.value.image, 8) && InArena(f.value.tiles, |a|)
  {
    if FileError(f, PRO_GEAR_SPEC_SIZE_PX).Some? then FileError(f, PRO_GEAR_SPEC_SIZE_PX)
    else if Given(f) && !TileBlank(a[f.value.tiles[0][4].value]) then Some(TileAtFFNotBlank)
    else None
  }

  /** The pro-gear-spec file: checked and flagged, then its tile at (32, 0) must be blank. */
  method AddProGearSource(arena: array<Tile>, f: Option<SromFile>, sources: seq<SourceResult>)
    returns (r: Result<seq<SourceResult>>)
    requires f.Some? ==> Extracted(f.value.tiles, f.value.image, 8) && InArena(f.value.tiles, arena.Length)
    modifies arena
    ensures ProGearError(old(arena[..]), f).Some? ==> r == Err(ProGearError(old(arena[..]), f).value)
    ensures ProGearError(old(arena[..]), f).None? ==> r == Ok(sources + Entry(f)) && FlaggedOver(old(arena[..]), arena[..], FileCells(f))
  {
    if !Given(f) {
      assert sources + [] == sources;
      return Ok(sources);
    }
    ghost var a := arena[..];
    var proGearSource := GetSromSource(arena, f.value.image, PRO_GEAR_SPEC_SIZE_PX, f.value.tiles);
    if proGearSource.Err? {
      return Err(proGearSource.error);
    }
    assert |f.value.tiles| == 2 && |f.value.tiles[0]| == 17;
    var tileAtFF := proGearSource.value[0][4].value;
    FlaggedOverPixels(a, arena[..], FileCells(f), tileAtFF);
    var blank := IsTileBlank(arena[tileAtFF]);
    if !blank {
      return Err(TileAtFFNotBlank);
    }
    r := Ok(sources + [SourceResult(proGearSource.value, f.value.name)]);
  }

  /**
   * The eyecatcher's `getSROMSources`: every given file is checked and
   * flagged in order, the pro-gear tile at 0xff is checked for blankness,
   * and the matrices come back tagged with their file names.
   */
  method GetSromSources(arena: array<Tile>, files: EyecatcherFiles) returns (r: Result<seq<SourceResult>>)
    requires FilesLoaded(files, arena.Length)
    modifies arena
    ensures r.Err? <==> SromSourcesError(old(arena[..]), files).Some?
    ensures r.Err? ==> r.error == SromSourcesError(old(arena[..]), files).value
    ensures r.Ok? ==> r.value == SromSources(files) && FlaggedOver(old(arena[..]), arena[..], SromCells(files))
  {
    ghost var a := arena[..];
    var s1 := AddSromSource(arena, files.max330Mega, MAX_330_MEGA_SIZE_PX, []);
    if s1.Err? {
      return Err(s1.error);
    }
    ghost var a1 := arena[..];
    assert s1.value == Entry(files.max330Mega);
    assert ProGearError(a1, files.proGearSpec) == ProGearError(a, files.proGearSpec) by {
      if Given(files.proGearSpec) && FileError(files.proGearSpec, PRO_GEAR_SPEC_SIZE_PX).None? {
        FlaggedOverPixels(a, a1, FileCells(files.max330Mega), files.proGearSpec.value.tiles[0][4].value);
      }
    }
    var s2 := AddProGearSource(arena, files.proGearSpec, s1.value);
    if s2.Err? {
      return Err(s2.error);
    }
    ghost var a2 := arena[..];
    FlaggedOverAppend(a, a1, a2, FileCells(files.max330Mega), FileCells(files.proGearSpec));
    var s3 := AddSromSource(arena, files.snkLogo, COMPANY_LOGO_SIZE_PX, s2.value);
    if s3.Err? {
      return Err(s3.error);
    }
    ghost var a3 := arena[..];
    FlaggedOverAppend(a, a2, a3, FileCells(files.max330Mega) + FileCells(files.proGearSpec), FileCells(files.snkLogo));
    assert s3.value == Entry(files.max330Mega) + Entry(files.proGearSpec) + Entry(files.snkLogo);
    r := AddSromSource(arena, files.copyrightCharacter, COPYRIGHT_SIZE_PX, s3.value);
    if r.Ok? {
      FlaggedOverAppend(a, a3, arena[..], FileCells(files.max330Mega) + FileCells(files.proGearSpec) + FileCells(files.snkLogo),
        FileCells(files.copyrightCharacter));
    }
  }
}
