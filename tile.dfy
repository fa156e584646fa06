/**
 * The tile record shared by the sprite (CROM) and fix-layer (SROM)
 * pipelines, and the arena that gives tiles their identity.
 *
 * The pipeline links tiles to one another by object reference (a
 * duplicate points at the tile it duplicates, an animation master lists
 * its child frames). Here every tile lives in an arena, a sequence or an
 * array of `Tile`, and a reference is an arena index.
 */
module Tiles {
  import opened Wrappers
  import opened Color
  import opened Seqs

  /** The two bit-plane streams of one encoded sprite tile. */
  datatype CromData = CromData(cEvenData: seq<int>, cOddData: seq<int>)

  /**
   * One tile. `canvasSource` is the tile's image, row-major, 8 pixels wide
   * for a fix-layer tile and 16 for a sprite tile. Every optional field of
   * the source record is an `Option`; `None` stands for `undefined`.
   */
  datatype Tile = Tile(
    canvasSource: seq<Rgba>,
    palette: Option<seq<int>>,
    paletteIndex: Option<int>,
    emitPalette: Option<bool>,
    paletteIgnoresDarkBit: Option<bool>,
    duplicateOf: Option<nat>,
    priority: Option<int>,
    sromBinaryData: Option<seq<int>>,
    sromIndex: Option<int>,
    cromBinaryData: Option<CromData>,
    cromIndex: Option<int>,
    childOf: Option<nat>,
    childAnimationFrames: Option<seq<nat>>)

  /** A tile as a generator first produces it: only its image is set. */
  function FreshTile(pixels: seq<Rgba>): (t: Tile)
    ensures t.canvasSource == pixels && t.palette.None? && t.duplicateOf.None?
    ensures t.sromIndex.None? && t.cromIndex.None? && t.childAnimationFrames.None?
  {
    Tile(pixels, None, None, None, None, None, None, None, None, None, None, None, None)
  }

  /** What `getImageData` yields outside a canvas: transparent black. */
  const TRANSPARENT_BLACK := Rgba(0, 0, 0, 0)

  /**
   * The pixel at column `x`, row `y` of a row-major image `width` pixels
   * wide; reads outside the image give transparent black.
   */
  function PixelAt(pixels: seq<Rgba>, width: nat, x: nat, y: nat): (c: Rgba)
    ensures x < width && y * width + x < |pixels| ==> c == pixels[y * width + x]
    ensures !(x < width && y * width + x < |pixels|) ==> c == TRANSPARENT_BLACK
  {
    if x < width && y * width + x < |pixels| then pixels[y * width + x] else TRANSPARENT_BLACK
  }

  /** Every reference a tile holds points into an arena of `n` tiles. */
  predicate RefsIn(t: Tile, n: nat) {
    (t.duplicateOf.Some? ==> t.duplicateOf.value < n)
    && (t.childOf.Some? ==> t.childOf.value < n)
    && (t.childAnimationFrames.Some? ==>
          forall c :: 0 <= c < |t.childAnimationFrames.value| ==> t.childAnimationFrames.value[c] < n)
  }

  /** An arena whose references all stay inside it. */
  predicate ArenaValid(s: seq<Tile>) {
    forall i :: 0 <= i < |s| ==> RefsIn(s[i], |s|)
  }

  /** A tile matrix: rows of cells, each empty or an arena index. */
  type Matrix = seq<seq<Option<nat>>>

  /** The tiles of one row, in order, nulls left out. */
  function CellVisits(row: seq<Option<nat>>): seq<nat> {
    if row == [] then []
    else
      var last := row[|row| - 1];
      CellVisits(row[..|row| - 1]) + (if last.Some? then [last.value] else [])
  }

  /** The tiles of the rows of one matrix, in order. */
  function RowVisits(rows: Matrix): seq<nat> {
    if rows == [] then [] else RowVisits(rows[..|rows| - 1]) + CellVisits(rows[|rows| - 1])
  }

  /**
   * The tiles of all matrices in order, nulls left out: what
   * `flat(2)` and a null filter give, and the order of three nested
   * `forEach`s.
   */
  function Visits(images: seq<Matrix>): seq<nat> {
    if images == [] then [] else Visits(images[..|images| - 1]) + RowVisits(images[|images| - 1])
  }

  /** Every non-empty cell of every matrix names an arena tile. */
  predicate CellsIn(images: seq<Matrix>, n: nat) {
    forall i, r, c :: 0 <= i < |images| && 0 <= r < |images[i]| && 0 <= c < |images[i][r]| && images[i][r][c].Some?
      ==> images[i][r][c].value < n
  }

  /** Every tile a walk over the matrices meets is an arena tile. */
  lemma {:induction false} VisitsIn(images: seq<Matrix>, n: nat)
    requires CellsIn(images, n)
    ensures forall k :: 0 <= k < |Visits(images)| ==> Visits(images)[k] < n
  {
    if images != [] {
      var m := |images| - 1;
      assert CellsIn(images[..m], n) by {
        forall i, r, c | 0 <= i < m && 0 <= r < |images[..m][i]| && 0 <= c < |images[..m][i][r]| && images[..m][i][r][c].Some?
          ensures images[..m][i][r][c].value < n
        {
          assert images[..m][i] == images[i];
        }
      }
      VisitsIn(images[..m], n);
      RowVisitsIn(images[m], n);
    }
  }

  lemma {:induction false} RowVisitsIn(rows: Matrix, n: nat)
    requires forall r, c :: 0 <= r < |rows| && 0 <= c < |rows[r]| && rows[r][c].Some? ==> rows[r][c].value < n
    ensures forall k :: 0 <= k < |RowVisits(rows)| ==> RowVisits(rows)[k] < n
  {
    if rows != [] {
      var m := |rows| - 1;
      assert forall r :: 0 <= r < m ==> rows[..m][r] == rows[r];
      RowVisitsIn(rows[..m], n);
      CellVisitsIn(rows[m], n);
    }
  }

  lemma {:induction false} CellVisitsIn(row: seq<Option<nat>>, n: nat)
    requires forall c :: 0 <= c < |row| && row[c].Some? ==> row[c].value < n
    ensures forall k :: 0 <= k < |CellVisits(row)| ==> CellVisits(row)[k] < n
  {
    if row != [] {
      var m := |row| - 1;
      assert forall c :: 0 <= c < m ==> row[..m][c] == row[c];
      CellVisitsIn(row[..m], n);
    }
  }

  /** One more cell, row or matrix extends a walk by what it visits. */
  lemma {:induction false} CellVisitsSnoc(row: seq<Option<nat>>, c: nat)
    requires c < |row|
    ensures CellVisits(row[..c + 1]) == CellVisits(row[..c]) + (if row[c].Some? then [row[c].value] else [])
  {
    assert row[..c + 1][..c] == row[..c];
  }

  lemma {:induction false} RowVisitsSnoc(rows: Matrix, r: nat)
    requires r < |rows|
    ensures RowVisits(rows[..r + 1]) == RowVisits(rows[..r]) + CellVisits(rows[r])
  {
    assert rows[..r + 1][..r] == rows[..r];
  }

  lemma {:induction false} VisitsSnoc(images: seq<Matrix>, i: nat)
    requires i < |images|
    ensures Visits(images[..i + 1]) == Visits(images[..i]) + RowVisits(images[i])
  {
    assert images[..i + 1][..i] == images[..i];
  }

  /**
   * The first cell, row by row from row `y` on and left to right within a
   * row, that holds tile `i`.
   */
  function Locate(tiles: Matrix, i: nat, y: nat): (p: Option<(nat, nat)>)
    ensures p.Some? ==> y <= p.value.0 < |tiles| && p.value.1 < |tiles[p.value.0]| && tiles[p.value.0][p.value.1] == Some(i)
    decreases |tiles| - y
  {
    if y >= |tiles| then None
    else
      var x := IndexOf(tiles[y], Some(i));
      if x >= 0 then Some((y, x)) else Locate(tiles, i, y + 1)
  }

  /** A tile at a cell of row `y` or below is found. */
  lemma {:induction false} LocateFinds(tiles: Matrix, i: nat, y: nat, y0: nat, x0: nat)
    requires y <= y0 < |tiles| && x0 < |tiles[y0]| && tiles[y0][x0] == Some(i)
    ensures Locate(tiles, i, y).Some?
    decreases y0 - y
  {
    if y < y0 && IndexOf(tiles[y], Some(i)) < 0 {
      LocateFinds(tiles, i, y + 1, y0, x0);
    }
  }

  /**
   * No two cells of a matrix hold the same tile, what extraction gives
   * (one fresh tile per cell), stated as: the search for the tile at any
   * cell stops at that cell.
   */
  predicate CellsDistinct(tiles: Matrix) {
    forall y, x :: 0 <= y < |tiles| && 0 <= x < |tiles[y]| && tiles[y][x].Some?
      ==> Locate(tiles, tiles[y][x].value, 0) == Some((y, x))
  }

  /** No two cells of a matrix hold the same tile, cell pair by cell pair. */
  predicate PairwiseDistinct(tiles: Matrix) {
    forall y1, x1, y2, x2 ::
      0 <= y1 < |tiles| && 0 <= x1 < |tiles[y1]| && 0 <= y2 < |tiles| && 0 <= x2 < |tiles[y2]|
      && tiles[y1][x1].Some? && tiles[y1][x1] == tiles[y2][x2]
      ==> y1 == y2 && x1 == x2
  }

  /** The two statements of distinct cells agree. */
  lemma {:induction false} CellsDistinctPairwise(tiles: Matrix)
    ensures CellsDistinct(tiles) <==> PairwiseDistinct(tiles)
  {
    if PairwiseDistinct(tiles) {
      forall y, x | 0 <= y < |tiles| && 0 <= x < |tiles[y]| && tiles[y][x].Some?
        ensures Locate(tiles, tiles[y][x].value, 0) == Some((y, x))
      {
        LocateFinds(tiles, tiles[y][x].value, 0, y, x);
      }
    }
  }

  /**
   * Every cell holds a tile: what a caller that reads a field of every
   * flattened cell without a null filter must guarantee.
   */
  predicate NoEmptyCells(images: seq<Matrix>) {
    forall i, r, c :: 0 <= i < |images| && 0 <= r < |images[i]| && 0 <= c < |images[i][r]| ==> images[i][r][c].Some?
  }
}
