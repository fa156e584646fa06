/**
 * `getCROMSources` of the sprite-animation generator: every animation of
 * every input is cut into frames, an auto animation's frame count is
 * checked and its first frame linked to the others, and the frames of all
 * animations are concatenated in input order.
 *
 * The image is not loaded here: an animation carries its image width in
 * pixels and the tile matrix `extractCromTileSources` cut from it, whose
 * cells are arena tiles.
 */
module CromAnimationSources {
  import opened Wrappers
  import opened Seqs
  import opened Tiles
  import opened Frames
  import opened CromAnimations

  // ---------------------------------------------------------------------
  // The frames of one image

  /** Every cell of the matrix holds an arena tile. */
  predicate Filled(tiles: Matrix, size: nat) {
    forall y, x :: 0 <= y < |tiles| && 0 <= x < |tiles[y]| ==> tiles[y][x].Some? && tiles[y][x].value < size
  }

  /**
   * What extraction cuts from an image `width` pixels wide: one fresh arena
   * tile per cell, and one cell per started 16-pixel column in every row.
   */
  predicate Extracted(tiles: Matrix, width: nat, size: nat) {
    Filled(tiles, size) && CellsDistinct(tiles)
    && forall y :: 0 <= y < |tiles| ==> |tiles[y]| == FrameCount(width, 1)
  }

  /** How many of the columns `[start, start + w)` a row of `len` cells has. */
  function SliceWidth(len: nat, start: nat, w: nat): (m: nat)
    ensures m <= w && (m > 0 ==> start + m <= len)
  {
    if len <= start then 0 else Min(start + w, len) - start
  }

  /** `frame` is the slice of `w` tile columns of the image from column `start`. */
  predicate SliceOf(frame: Matrix, tiles: Matrix, start: nat, w: nat) {
    |frame| == |tiles|
    && (forall y :: 0 <= y < |tiles| ==> |frame[y]| == SliceWidth(|tiles[y]|, start, w))
    && (forall y, x :: 0 <= y < |tiles| && 0 <= x < |frame[y]| ==> frame[y][x] == tiles[y][start + x])
  }

  /** The frames from `f` on are slices of the image, frame `g` from column `Start(g, w)`. */
  predicate SlicedFrom(frames: seq<Matrix>, tiles: Matrix, w: nat, f: nat)
    decreases |frames| - f
  {
    f < |frames| ==> SliceOf(frames[f], tiles, Start(f, w), w) && SlicedFrom(frames, tiles, w, f + 1)
  }

  /**
   * `frames` are slices of `w` tile columns each of the image, frame `f`
   * from column `f * w`: every frame has the image's rows, and a frame row
   * holds the cells of its columns that the image row has, in order.
   */
  predicate Sliced(frames: seq<Matrix>, tiles: Matrix, w: int) {
    w >= 1 && (forall f :: 0 <= f < |frames| ==> |frames[f]| == |tiles|) && SlicedFrom(frames, tiles, w, 0)
  }

  /** Any frame of sliced frames is a slice. */
  lemma {:induction false} SlicedFrame(frames: seq<Matrix>, tiles: Matrix, w: nat, g: nat, f: nat)
    requires SlicedFrom(frames, tiles, w, g) && g <= f < |frames|
    ensures SliceOf(frames[f], tiles, Start(f, w), w)
    decreases f - g
  {
    if g < f {
      SlicedFrame(frames, tiles, w, g + 1, f);
    }
  }

  /** One cell of a sliced frame. */
  lemma {:induction false} SlicedCell(frames: seq<Matrix>, tiles: Matrix, w: int, f: nat, y: nat, x: nat)
    requires Sliced(frames, tiles, w) && f < |frames| && y < |tiles|
    ensures y < |frames[f]| && |frames[f][y]| == SliceWidth(|tiles[y]|, Start(f, w), w)
    ensures x < |frames[f][y]| <==> x < w && Start(f, w) + x < |tiles[y]|
    ensures x < |frames[f][y]| ==> frames[f][y][x] == tiles[y][Start(f, w) + x]
  {
    SlicedFrame(frames, tiles, w, 0, f);
    assert |frames[f][y]| == SliceWidth(|tiles[y]|, Start(f, w), w);
  }

  /** Row `y` of frame `f` is a slice of image row `y`. */
  lemma {:induction false} FrameRowSliced(tiles: Matrix, w: int, f: nat, y: nat)
    requires w >= 1 && y < |tiles|
    ensures |FrameAt(tiles, f, w)| == |tiles|
    ensures |FrameAt(tiles, f, w)[y]| == SliceWidth(|tiles[y]|, Start(f, w), w)
    ensures forall x :: 0 <= x < |FrameAt(tiles, f, w)[y]| ==> FrameAt(tiles, f, w)[y][x] == tiles[y][Start(f, w) + x]
  {
    var start := Start(f, w);
    FrameKeepsColumns(tiles, start, start + w, y);
  }

  /** The frames the frame loop cuts are slices of the image. */
  lemma {:induction false} FramesSliced(tiles: Matrix, n: nat, w: int)
    requires w >= 1
    ensures Sliced(FramesOf(tiles, n, w), tiles, w)
  {
    FramesSlicedFrom(tiles, n, w, 0);
    forall f | 0 <= f < n
      ensures |FramesOf(tiles, n, w)[f]| == |tiles|
    {
      assert FramesOf(tiles, n, w)[f] == FrameAt(tiles, f, w);
    }
  }

  /** The frames the frame loop cuts, from frame `g` on, are slices of the image. */
  lemma {:induction false} FramesSlicedFrom(tiles: Matrix, n: nat, w: nat, g: nat)
    requires w >= 1
    ensures SlicedFrom(FramesOf(tiles, n, w), tiles, w, g)
    decreases n - g
  {
    if g < n {
      FramesSlicedFrom(tiles, n, w, g + 1);
      FrameSliceOf(tiles, n, w, g);
    }
  }

  /** Frame `g` of the split is the slice starting at column `Start(g, w)`. */
  lemma {:induction false} FrameSliceOf(tiles: Matrix, n: nat, w: nat, g: nat)
    requires w >= 1 && g < n
    ensures SliceOf(FramesOf(tiles, n, w)[g], tiles, Start(g, w), w)
  {
    var frame := FramesOf(tiles, n, w)[g];
    assert frame == FrameAt(tiles, g, w);
    forall y | 0 <= y < |tiles|
      ensures |frame[y]| == SliceWidth(|tiles[y]|, Start(g, w), w)
      ensures forall x :: 0 <= x < |frame[y]| ==> frame[y][x] == tiles[y][Start(g, w) + x]
    {
      FrameRowSliced(tiles, w, g, y);
    }
    assert |frame| == |tiles|;
  }

  /** Slices of a filled matrix fit the first one: `applyChildTiles` meets a master tile at every child cell. */
  lemma {:induction false} SlicedFramesFit(frames: seq<Matrix>, tiles: Matrix, w: int, size: nat)
    requires Sliced(frames, tiles, w) && |frames| >= 1 && Filled(tiles, size)
    ensures FramesFit(frames[0], frames[1..], |frames| - 1, size)
  {
    var master: Matrix := frames[0];
    var children: seq<Matrix> := frames[1..];
    forall f: nat | f < |frames| - 1
      ensures FrameFits(master, children[f], |children[f]|, size)
    {
      var c: Matrix := frames[f + 1];
      assert children[f] == c;
      forall y | 0 <= y < |c|
        ensures RowFits(master[y], c[y], |c[y]|, size)
      {
        forall x | 0 <= x < |c[y]|
          ensures x < |master[y]| && master[y][x].Some? && c[y][x].Some? && master[y][x].value < size && c[y][x].value < size
        {
          SlicedCell(frames, tiles, w, f + 1, y, x);
          SlicedCell(frames, tiles, w, 0, y, x);
        }
        assert |c[y]| <= |master[y]| by {
          SlicedCell(frames, tiles, w, f + 1, y, 0);
          SlicedCell(frames, tiles, w, 0, y, 0);
          StartMono(0, f + 1, w);
        }
      }
    }
  }

  /** Every child frame has the cell of a master whose column the last frame has. */
  lemma {:induction false} ColumnCovered(frames: seq<Matrix>, tiles: Matrix, w: int, y: nat, x: nat)
    requires Sliced(frames, tiles, w) && |frames| >= 1
    requires y < |tiles| && x < w && Start(|frames| - 1, w) + x < |tiles[y]|
    ensures CoversCell(frames[1..], |frames| - 1, y, x)
  {
    var children: seq<Matrix> := frames[1..];
    forall f: nat | f < |frames| - 1
      ensures y < |children[f]| && x < |children[f][y]|
    {
      assert children[f] == frames[f + 1];
      StartMono(f + 1, |frames| - 1, w);
      SlicedCell(frames, tiles, w, f + 1, y, x);
    }
  }

  /** The tiles at cell `(y, x)` of frames 1 on, in frame order: what a master at that cell gets as children. */
  function ChildColumn(frames: seq<Matrix>, tiles: Matrix, w: int, size: nat, y: nat, x: nat): (col: seq<nat>)
    requires Sliced(frames, tiles, w) && |frames| >= 1 && Filled(tiles, size)
    requires y < |tiles| && x < w && Start(|frames| - 1, w) + x < |tiles[y]|
    ensures |col| == |frames| - 1
  {
    SlicedFramesFit(frames, tiles, w, size);
    ColumnCovered(frames, tiles, w, y, x);
    Column(frames[0], frames[1..], |frames| - 1, size, y, x)
  }

  /**
   * The children of a master at column `x < w` of row `y` are the tiles
   * at columns `w + x`, `2 * w + x`, ... of that image row.
   */
  lemma {:induction false} ChildColumnCells(frames: seq<Matrix>, tiles: Matrix, w: int, size: nat, y: nat, x: nat)
    requires Sliced(frames, tiles, w) && |frames| >= 1 && Filled(tiles, size)
    requires y < |tiles| && x < w && Start(|frames| - 1, w) + x < |tiles[y]|
    ensures forall f :: 1 <= f < |frames| ==>
              Start(f, w) + x < |tiles[y]| && Some(ChildColumn(frames, tiles, w, size, y, x)[f - 1]) == tiles[y][Start(f, w) + x]
  {
    SlicedFramesFit(frames, tiles, w, size);
    ColumnCovered(frames, tiles, w, y, x);
    ColumnCells(frames, tiles, w, size, y, x, ChildColumn(frames, tiles, w, size, y, x));
  }

  /** The column of a master holds the image cells `(f + 1) * w + x`. */
  lemma {:induction false} ColumnCells(frames: seq<Matrix>, tiles: Matrix, w: int, size: nat, y: nat, x: nat, col: seq<nat>)
    requires Sliced(frames, tiles, w) && |frames| >= 1 && y < |tiles|
    requires FramesFit(frames[0], frames[1..], |frames| - 1, size) && CoversCell(frames[1..], |frames| - 1, y, x)
    requires col == Column(frames[0], frames[1..], |frames| - 1, size, y, x)
    ensures forall f :: 1 <= f < |frames| ==> Start(f, w) + x < |tiles[y]| && Some(col[f - 1]) == tiles[y][Start(f, w) + x]
  {
    forall f | 1 <= f < |frames|
      ensures Start(f, w) + x < |tiles[y]| && Some(col[f - 1]) == tiles[y][Start(f, w) + x]
    {
      ColumnCell(frames, tiles, w, size, y, x, f - 1);
    }
  }

  /** Entry `f` of a master's column is the image cell `(f + 1) * w + x`. */
  lemma {:induction false} ColumnCell(frames: seq<Matrix>, tiles: Matrix, w: int, size: nat, y: nat, x: nat, f: nat)
    requires Sliced(frames, tiles, w) && f + 1 < |frames| && y < |tiles|
    requires FramesFit(frames[0], frames[1..], |frames| - 1, size) && CoversCell(frames[1..], |frames| - 1, y, x)
    ensures Start(f + 1, w) + x < |tiles[y]|
    ensures Some(Column(frames[0], frames[1..], |frames| - 1, size, y, x)[f]) == tiles[y][Start(f + 1, w) + x]
  {
    assert frames[1..][f] == frames[f + 1];
    ColumnAt(frames[0], frames[1..], |frames| - 1, size, y, x, f);
    SlicedCell(frames, tiles, w, f + 1, y, x);
  }

  // ---------------------------------------------------------------------
  // What the links of one image do

  /** A master tile sits at one cell of the first frame only. */
  lemma {:induction false} MasterUnique(frames: seq<Matrix>, tiles: Matrix, w: int, y: nat, x: nat)
    requires Sliced(frames, tiles, w) && |frames| >= 1 && CellsDistinct(tiles)
    requires y < |tiles| && x < w && x < |tiles[y]| && tiles[y][x].Some?
    ensures y < |frames[0]| && x < |frames[0][y]| && frames[0][y][x] == tiles[y][x]
    ensures UniqueCell(frames[0], y, x)
  {
    var master: Matrix := frames[0];
    SlicedCell(frames, tiles, w, 0, y, x);
    forall y2, x2 | 0 <= y2 < |master| && 0 <= x2 < |master[y2]| && (y2 != y || x2 != x)
      ensures master[y2][x2] != master[y][x]
    {
      SlicedCell(frames, tiles, w, 0, y2, x2);
    }
  }

  /** A master tile is in no child frame: those start `w` columns further on. */
  lemma {:induction false} MasterNotAChild(frames: seq<Matrix>, tiles: Matrix, w: int, y: nat, x: nat)
    requires Sliced(frames, tiles, w) && |frames| >= 1 && CellsDistinct(tiles)
    requires y < |tiles| && x < w && x < |tiles[y]| && tiles[y][x].Some?
    ensures NotAChild(frames[1..], |frames| - 1, tiles[y][x].value)
  {
    var children: seq<Matrix> := frames[1..];
    forall f, y2, x2 | 0 <= f < |frames| - 1 && 0 <= y2 < |children[f]| && 0 <= x2 < |children[f][y2]|
      ensures children[f][y2][x2] != tiles[y][x]
    {
      assert children[f] == frames[f + 1];
      StartMono(0, f + 1, w);
      SlicedCell(frames, tiles, w, f + 1, y2, x2);
    }
  }

  /** A child tile sits at one cell of the child frames only. */
  lemma {:induction false} ChildUnique(frames: seq<Matrix>, tiles: Matrix, w: int, f: nat, y: nat, k: nat)
    requires Sliced(frames, tiles, w) && CellsDistinct(tiles) && 1 <= f < |frames|
    requires y < |tiles| && k < w && Start(f, w) + k < |tiles[y]| && tiles[y][Start(f, w) + k].Some?
    ensures y < |frames[1..][f - 1]| && k < |frames[1..][f - 1][y]| && frames[1..][f - 1][y][k] == tiles[y][Start(f, w) + k]
    ensures UniqueChild(frames[1..], |frames| - 1, f - 1, y, k)
  {
    var children: seq<Matrix> := frames[1..];
    SlicedCell(frames, tiles, w, f, y, k);
    assert children[f - 1] == frames[f];
    forall f2, y2, x2 | 0 <= f2 < |frames| - 1 && 0 <= y2 < |children[f2]| && 0 <= x2 < |children[f2][y2]| && (f2 != f - 1 || y2 != y || x2 != k)
      ensures children[f2][y2][x2] != children[f - 1][y][k]
    {
      assert children[f2] == frames[f2 + 1];
      CellApart(frames, tiles, w, f, y, k, f2 + 1, y2, x2);
    }
  }

  /** Two cells of the frames at different places hold different tiles. */
  lemma {:induction false} CellApart(frames: seq<Matrix>, tiles: Matrix, w: int, f: nat, y: nat, k: nat, f2: nat, y2: nat, x2: nat)
    requires Sliced(frames, tiles, w) && CellsDistinct(tiles) && f < |frames| && f2 < |frames|
    requires y < |tiles| && k < |frames[f][y]| && frames[f][y][k].Some?
    requires y2 < |tiles| && x2 < |frames[f2][y2]| && (f2 != f || y2 != y || x2 != k)
    ensures frames[f2][y2][x2] != frames[f][y][k]
  {
    SlicedCell(frames, tiles, w, f, y, k);
    SlicedCell(frames, tiles, w, f2, y2, x2);
    if frames[f2][y2][x2] == frames[f][y][k] {
      ColumnSplitUnique(f2, x2, f, k, w);
    }
  }

  /** A child tile is in no cell of the first frame: it lies `w` columns or more along. */
  lemma {:induction false} ChildNotInMaster(frames: seq<Matrix>, tiles: Matrix, w: int, y: nat, c: nat)
    requires Sliced(frames, tiles, w) && |frames| >= 1 && CellsDistinct(tiles)
    requires y < |tiles| && w <= c < |tiles[y]| && tiles[y][c].Some?
    ensures NotInMatrix(frames[0], tiles[y][c].value)
  {
    var master: Matrix := frames[0];
    forall y2, x2 | 0 <= y2 < |master| && 0 <= x2 < |master[y2]|
      ensures master[y2][x2] != tiles[y][c]
    {
      SlicedCell(frames, tiles, w, 0, y2, x2);
    }
  }

  /**
   * A master, the tile at column `x < w` of row `y`, gains as children,
   * after those it had, the tiles at that cell of the later frames in
   * frame order; its own master is left as it was. The last frame must
   * have the cell.
   */
  lemma {:induction false} MasterGetsColumn(a: seq<Tile>, frames: seq<Matrix>, tiles: Matrix, w: int, y: nat, x: nat)
    requires Sliced(frames, tiles, w) && |frames| >= 1 && Filled(tiles, |a|) && CellsDistinct(tiles)
    requires y < |tiles| && x < w && Start(|frames| - 1, w) + x < |tiles[y]|
    ensures x < |tiles[y]| && tiles[y][x].Some? && tiles[y][x].value < |a|
    ensures FramesFit(frames[0], frames[1..], |frames| - 1, |a|)
    ensures ApplyAll(a, ChildLinks(frames[0], frames[1..], |frames| - 1, |a|))[tiles[y][x].value]
            == Linked(a[tiles[y][x].value], ChildColumn(frames, tiles, w, |a|, y, x), None)
  {
    MasterFacts(frames, tiles, w, |a|, y, x);
    MasterCellLinked(a, frames, y, x, tiles[y][x].value);
  }

  /** What `MasterLinked` needs of the master at cell `(y, x)` of the first frame. */
  lemma {:induction false} MasterFacts(frames: seq<Matrix>, tiles: Matrix, w: int, size: nat, y: nat, x: nat)
    requires Sliced(frames, tiles, w) && |frames| >= 1 && Filled(tiles, size) && CellsDistinct(tiles)
    requires y < |tiles| && x < w && Start(|frames| - 1, w) + x < |tiles[y]|
    ensures x < |tiles[y]| && tiles[y][x].Some? && tiles[y][x].value < size
    ensures FramesFit(frames[0], frames[1..], |frames| - 1, size)
    ensures CoversCell(frames[1..], |frames| - 1, y, x)
    ensures y < |frames[0]| && x < |frames[0][y]| && frames[0][y][x] == tiles[y][x] && UniqueCell(frames[0], y, x)
    ensures NotAChild(frames[1..], |frames| - 1, tiles[y][x].value)
  {
    StartMono(0, |frames| - 1, w);
    SlicedFramesFit(frames, tiles, w, size);
    ColumnCovered(frames, tiles, w, y, x);
    MasterUnique(frames, tiles, w, y, x);
    MasterNotAChild(frames, tiles, w, y, x);
  }

  /** `MasterLinked` for the master `i` at cell `(y, x)` of the first frame. */
  lemma {:induction false} MasterCellLinked(a: seq<Tile>, frames: seq<Matrix>, y: nat, x: nat, i: nat)
    requires |frames| >= 1 && FramesFit(frames[0], frames[1..], |frames| - 1, |a|)
    requires CoversCell(frames[1..], |frames| - 1, y, x)
    requires y < |frames[0]| && x < |frames[0][y]| && frames[0][y][x] == Some(i) && i < |a| && UniqueCell(frames[0], y, x)
    requires NotAChild(frames[1..], |frames| - 1, i)
    ensures ApplyAll(a, ChildLinks(frames[0], frames[1..], |frames| - 1, |a|))[i]
            == Linked(a[i], Column(frames[0], frames[1..], |frames| - 1, |a|, y, x), None)
  {
    var master, children := frames[0], frames[1..];
    MasterLinked(a, master, children, |frames| - 1, y, x, i);
  }

  /** What `ChildLinked` needs of the child at cell `(y, k)` of frame `f >= 1`. */
  lemma {:induction false} ChildFacts(frames: seq<Matrix>, tiles: Matrix, w: int, size: nat, y: nat, f: nat, k: nat)
    requires Sliced(frames, tiles, w) && Filled(tiles, size) && CellsDistinct(tiles)
    requires 1 <= f < |frames| && y < |tiles| && k < w && Start(f, w) + k < |tiles[y]|
    ensures FramesFit(frames[0], frames[1..], |frames| - 1, size)
    ensures y < |frames[1..][f - 1]| && k < |frames[1..][f - 1][y]| && frames[1..][f - 1][y][k] == tiles[y][Start(f, w) + k]
    ensures UniqueChild(frames[1..], |frames| - 1, f - 1, y, k)
    ensures NotInMatrix(frames[0], tiles[y][Start(f, w) + k].value)
    ensures y < |frames[0]| && k < |frames[0][y]| && frames[0][y][k] == tiles[y][k]
  {
    assert FramesFit(frames[0], frames[1..], |frames| - 1, size) by {
      SlicedFramesFit(frames, tiles, w, size);
    }
    assert y < |frames[1..][f - 1]| && k < |frames[1..][f - 1][y]| && frames[1..][f - 1][y][k] == tiles[y][Start(f, w) + k]
      && UniqueChild(frames[1..], |frames| - 1, f - 1, y, k) by {
      ChildUnique(frames, tiles, w, f, y, k);
    }
    assert NotInMatrix(frames[0], tiles[y][Start(f, w) + k].value) by {
      StartMono(0, f, w);
      ChildNotInMaster(frames, tiles, w, y, Start(f, w) + k);
    }
    assert y < |frames[0]| && k < |frames[0][y]| && frames[0][y][k] == tiles[y][k] by {
      SlicedCell(frames, tiles, w, 0, y, k);
    }
  }

  /**
   * A child, the tile at cell `(y, k)` of frame `f >= 1` (column
   * `f * w + k` of the image row), gets as its master the tile at cell
   * `(y, k)` of the first frame; its own children are left as they were.
   */
  lemma {:induction false} ChildGetsMaster(a: seq<Tile>, frames: seq<Matrix>, tiles: Matrix, w: int, y: nat, f: nat, k: nat)
    requires Sliced(frames, tiles, w) && Filled(tiles, |a|) && CellsDistinct(tiles)
    requires 1 <= f < |frames| && y < |tiles| && k < w && Start(f, w) + k < |tiles[y]|
    ensures k < |tiles[y]| && tiles[y][Start(f, w) + k].Some? && tiles[y][Start(f, w) + k].value < |a|
    ensures FramesFit(frames[0], frames[1..], |frames| - 1, |a|)
    ensures ApplyAll(a, ChildLinks(frames[0], frames[1..], |frames| - 1, |a|))[tiles[y][Start(f, w) + k].value]
            == a[tiles[y][Start(f, w) + k].value].(childOf := tiles[y][k])
  {
    ChildFacts(frames, tiles, w, |a|, y, f, k);
    ChildCellLinked(a, frames, tiles, y, f, k, Start(f, w) + k);
  }

  /** `ChildLinked` for the child at cell `(y, k)` of frame `f`, named by its image column `c`. */
  lemma {:induction false} ChildCellLinked(a: seq<Tile>, frames: seq<Matrix>, tiles: Matrix, y: nat, f: nat, k: nat, c: nat)
    requires 1 <= f < |frames| && y < |tiles| && c < |tiles[y]| && k < |tiles[y]|
    requires FramesFit(frames[0], frames[1..], |frames| - 1, |a|)
    requires y < |frames[1..][f - 1]| && k < |frames[1..][f - 1][y]| && frames[1..][f - 1][y][k] == tiles[y][c]
    requires UniqueChild(frames[1..], |frames| - 1, f - 1, y, k)
    requires tiles[y][c].Some? && tiles[y][c].value < |a| && NotInMatrix(frames[0], tiles[y][c].value)
    requires y < |frames[0]| && k < |frames[0][y]| && frames[0][y][k] == tiles[y][k]
    ensures ApplyAll(a, ChildLinks(frames[0], frames[1..], |frames| - 1, |a|))[tiles[y][c].value]
            == a[tiles[y][c].value].(childOf := tiles[y][k])
  {
    var master, children := frames[0], frames[1..];
    ChildLinked(a, master, children, |frames| - 1, f - 1, y, k, tiles[y][c].value);
  }

  /** A tile at no cell of the image is at no cell of its frames. */
  lemma {:induction false} NotInFrames(frames: seq<Matrix>, tiles: Matrix, w: int, i: nat)
    requires Sliced(frames, tiles, w) && |frames| >= 1 && NotInMatrix(tiles, i)
    ensures NotInMatrix(frames[0], i) && NotAChild(frames[1..], |frames| - 1, i)
  {
    var master: Matrix := frames[0];
    var children: seq<Matrix> := frames[1..];
    forall y, x | 0 <= y < |master| && 0 <= x < |master[y]|
      ensures master[y][x] != Some(i)
    {
      SlicedCell(frames, tiles, w, 0, y, x);
    }
    forall f, y, x | 0 <= f < |frames| - 1 && 0 <= y < |children[f]| && 0 <= x < |children[f][y]|
      ensures children[f][y][x] != Some(i)
    {
      assert children[f] == frames[f + 1];
      SlicedCell(frames, tiles, w, f + 1, y, x);
    }
  }

  /** A tile at no cell of the image is left as it was. */
  lemma {:induction false} OthersUntouched(a: seq<Tile>, frames: seq<Matrix>, tiles: Matrix, w: int, i: nat)
    requires Sliced(frames, tiles, w) && |frames| >= 1 && Filled(tiles, |a|) && i < |a| && NotInMatrix(tiles, i)
    ensures FramesFit(frames[0], frames[1..], |frames| - 1, |a|)
    ensures ApplyAll(a, ChildLinks(frames[0], frames[1..], |frames| - 1, |a|))[i] == a[i]
  {
    SlicedFramesFit(frames, tiles, w, |a|);
    NotInFrames(frames, tiles, w, i);
    UnlinkedUntouched(a, frames[0], frames[1..], |frames| - 1, i);
  }
}
