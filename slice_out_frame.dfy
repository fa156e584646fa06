/**
 * `sliceOutFrame`: the columns of a tile matrix that make up one frame of
 * an animation. The repository has two identical copies of it (one in the
 * tile helpers, one inside the animation generator); both are this one.
 *
 * A cell is whatever the matrix holds (here always an arena index), so
 * the frame shares its cells with the matrix, and the matrix itself, a
 * value, cannot be changed by the call.
 */
module Frames {
  import opened Seqs

  /** The smaller of two integers. */
  function Min(a: int, b: int): (m: int)
    ensures m <= a && m <= b && (m == a || m == b)
  {
    if a <= b then a else b
  }

  /**
   * The columns `[startX, endX)` of every row, with JavaScript's slice
   * bounds: a row shorter than `endX` gives what it has from `startX` on.
   */
  function Frame<T>(tiles: seq<seq<T>>, startX: int, endX: int): seq<seq<T>>
  {
    seq(|tiles|, y requires 0 <= y < |tiles| => JsSlice(tiles[y], startX, endX))
  }

  /**
   * For bounds that are not negative, row `y` of the frame holds exactly
   * the row's cells from `startX` up to `endX` or the end of the row,
   * whichever comes first, and there is one such row per input row.
   */
  lemma {:induction false} FrameKeepsColumns<T>(tiles: seq<seq<T>>, startX: int, endX: int, y: int)
    requires 0 <= startX <= endX && 0 <= y < |tiles|
    ensures |Frame(tiles, startX, endX)| == |tiles|
    ensures |Frame(tiles, startX, endX)[y]| == (if |tiles[y]| <= startX then 0 else Min(endX, |tiles[y]|) - startX)
    ensures forall k :: 0 <= k < |Frame(tiles, startX, endX)[y]| ==>
              Frame(tiles, startX, endX)[y][k] == tiles[y][startX + k]
  {
    var row := tiles[y];
    if |row| <= startX {
      assert ClampIndex(endX, |row|) == |row|;
    } else {
      assert JsSlice(row, startX, endX) == row[startX..Min(endX, |row|)];
    }
  }

  /** `sliceOutFrame(tiles, startX, endX)`: one row slice pushed per row. */
  method SliceOutFrame<T>(tiles: seq<seq<T>>, startX: int, endX: int) returns (rows: seq<seq<T>>)
    ensures rows == Frame(tiles, startX, endX)
  {
    rows := [];
    for y := 0 to |tiles|
      invariant |rows| == y
      invariant forall j :: 0 <= j < y ==> rows[j] == JsSlice(tiles[j], startX, endX)
    {
      rows := rows + [JsSlice(tiles[y], startX, endX)];
    }
  }
}
