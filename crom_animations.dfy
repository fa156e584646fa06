/**
 * The sprite-animation generator: an animation image is cut into frames of
 * `tileWidth` tile columns each, and an auto animation links every tile of
 * its first frame (a master) to the tiles at the same cell of the later
 * frames (its children).
 *
 * Loading the image is left out: an animation carries its image width and
 * the tile matrix cut from it. Tiles live in an arena (`array<Tile>`); a
 * matrix cell is the arena index of its tile.
 */
module CromAnimations {
  import opened Wrappers
  import opened Seqs
  import opened Tiles
  import opened Frames

  // ---------------------------------------------------------------------
  // Frames

  /** `animation.tileWidth ?? 1`: an absent width is 1; zero and negative widths are kept. */
  function StepWidth(tileWidth: Option<int>): int {
    if tileWidth.Some? then tileWidth.value else 1
  }

  /** The passes of `for (x = 0; x < width / 16; x += w)` for a positive `w`. */
  function FrameCount(width: int, w: int): nat
    requires w >= 1
    decreases width
  {
    if width <= 0 then 0 else 1 + FrameCount(width - 16 * w, w)
  }

  /**
   * The frame count is the number of `16 * w`-pixel bands it takes to
   * cover the image, a last partial band included: none for an empty image.
   */
  lemma {:induction false} FrameCountBounds(width: int, w: int)
    requires w >= 1
    ensures FrameCount(width, w) == 0 <==> width <= 0
    ensures width > 0 ==> 16 * w * (FrameCount(width, w) - 1) < width <= 16 * w * FrameCount(width, w)
  {
    if width > 0 {
      FrameCountBounds(width - 16 * w, w);
      var n := FrameCount(width - 16 * w, w);
      assert 16 * w * (n + 1) == 16 * w * n + 16 * w;
      if n > 0 {
        assert 16 * w * n == 16 * w * (n - 1) + 16 * w;
      }
    }
  }

  /**
   * Column `f * w`, where frame `f` starts: the loop variable `x` after
   * `f` steps of `x += w`, written as that sum.
   */
  function Start(f: int, w: nat): nat {
    if f <= 0 then 0 else Start(f - 1, w) + w
  }

  /** `f` steps of `w` columns make `f * w` columns. */
  lemma {:induction false} StartIsProduct(f: nat, w: nat)
    ensures Start(f, w) == f * w
  {
    if f > 0 {
      StartIsProduct(f - 1, w);
      assert f * w == (f - 1) * w + w;
    }
  }

  /** Later frames start later, by `w` columns at least. */
  lemma {:induction false} StartMono(f1: nat, f2: nat, w: nat)
    requires f1 <= f2
    ensures Start(f1, w) <= Start(f2, w)
    ensures f1 < f2 ==> Start(f1, w) + w <= Start(f2, w)
    decreases f2 - f1
  {
    if f1 < f2 {
      StartMono(f1, f2 - 1, w);
    }
  }

  /** With a positive step, frames start in frame order. */
  lemma {:induction false} StartOrder(f1: nat, f2: nat, w: nat)
    requires w >= 1
    ensures f1 < f2 <==> Start(f1, w) < Start(f2, w)
  {
    if f1 < f2 {
      StartMono(f1, f2, w);
    } else {
      StartMono(f2, f1, w);
    }
  }

  /** Column `Start(f, w) + k` with `0 <= k < w` names one `(f, k)` only. */
  lemma {:induction false} ColumnSplitUnique(f1: nat, k1: nat, f2: nat, k2: nat, w: nat)
    requires k1 < w && k2 < w && Start(f1, w) + k1 == Start(f2, w) + k2
    ensures f1 == f2 && k1 == k2
  {
    if f1 < f2 {
      StartMono(f1, f2, w);
    } else if f2 < f1 {
      StartMono(f2, f1, w);
    }
  }

  /** Frame `f`: the slice of `w` tile columns from `Start(f, w)`. */
  function FrameAt(tiles: Matrix, f: int, w: nat): Matrix {
    Frame(tiles, Start(f, w), Start(f, w) + w)
  }

  /** `n` consecutive slices of `w` tile columns, from column 0. */
  function FramesOf(tiles: Matrix, n: nat, w: nat): (frames: seq<Matrix>)
    ensures |frames| == n
  {
    seq(n, f => FrameAt(tiles, f, w))
  }

  /** What the frame loop makes of an image `width` pixels wide: its frames, or the loop that never ends. */
  function SplitResult(tiles: Matrix, width: nat, tileWidth: Option<int>): Result<seq<Matrix>> {
    var w := StepWidth(tileWidth);
    if width == 0 then Ok([])
    else if w <= 0 then Err(NeverTerminates)
    else Ok(FramesOf(tiles, FrameCount(width, w), w))
  }

  /**
   * The frame loop of `getCROMSources`: one frame per start column `x`
   * below `width / 16`, each `sliceOutFrame(allTiles, x, x + w)`. A width
   * of zero or less never moves past column 0 of a non-empty image, so
   * the source loops forever there; that is the error here.
   */
  method SplitFrames(allTiles: Matrix, width: nat, tileWidth: Option<int>) returns (r: Result<seq<Matrix>>)
    ensures r == SplitResult(allTiles, width, tileWidth)
  {
    var w := StepWidth(tileWidth);
    if width > 0 && w <= 0 {
      return Err(NeverTerminates);
    }
    var frames: seq<Matrix> := [];
    var x := 0;
    while 16 * x < width
      invariant width == 0 ==> frames == []
      invariant width > 0 ==> w >= 1 && x == Start(|frames|, w) && frames == FramesOf(allTiles, |frames|, w)
      invariant width > 0 ==> |frames| + FrameCount(width - 16 * x, w) == FrameCount(width, w)
      decreases width - 16 * x
    {
      var frame := SliceOutFrame(allTiles, x, x + w);
      frames := frames + [frame];
      x := x + w;
    }
    assert width > 0 ==> FrameCount(width - 16 * x, w) == 0;
    return Ok(frames);
  }

  /** A frame that starts inside the image is one of its frames. */
  lemma {:induction false} FrameStartsInside(width: nat, w: int, f: nat, k: nat)
    requires w >= 1 && 16 * (Start(f, w) + k) < width
    ensures f < FrameCount(width, w)
  {
    FrameCountCovers(width, w);
    StartOrder(f, FrameCount(width, w), w);
  }

  /** The frames together reach the end of the image. */
  lemma {:induction false} FrameCountCovers(width: int, w: int)
    requires w >= 1
    ensures width <= 16 * Start(FrameCount(width, w), w)
  {
    if width > 0 {
      FrameCountCovers(width - 16 * w, w);
    }
  }

  /**
   * Every tile column of the image lands in a frame: column
   * `Start(f, w) + k` of a row, with `k < w`, is column `k` of frame `f`.
   */
  lemma {:induction false} FrameHolds(tiles: Matrix, width: nat, w: int, y: int, f: nat, k: nat)
    requires w >= 1 && k < w && 0 <= y < |tiles| && Start(f, w) + k < |tiles[y]| && 16 * (Start(f, w) + k) < width
    ensures f < FrameCount(width, w)
    ensures k < |FramesOf(tiles, FrameCount(width, w), w)[f][y]|
    ensures FramesOf(tiles, FrameCount(width, w), w)[f][y][k] == tiles[y][Start(f, w) + k]
  {
    FrameStartsInside(width, w, f, k);
    FrameKeepsColumns(tiles, Start(f, w), Start(f, w) + w, y);
  }

  /** Column `c` of a row is column `c % w` of frame `c / w`. */
  lemma {:induction false} ColumnInFrame(tiles: Matrix, width: nat, w: int, y: int, c: int)
    requires w >= 1 && 0 <= y < |tiles| && 0 <= c < |tiles[y]| && 16 * c < width
    ensures c / w < FrameCount(width, w)
    ensures c % w < |FramesOf(tiles, FrameCount(width, w), w)[c / w][y]|
    ensures FramesOf(tiles, FrameCount(width, w), w)[c / w][y][c % w] == tiles[y][c]
  {
    StartIsProduct(c / w, w);
    assert c == Start(c / w, w) + c % w;
    FrameHolds(tiles, width, w, y, c / w, c % w);
  }

  // ---------------------------------------------------------------------
  // Links

  /** One step of `applyChildTiles`: `master` lists `child` as its next frame, and `child` points at `master`. */
  datatype Link = Link(master: nat, child: nat)

  /** `childAnimationFrames ??= []`. */
  function OrEmpty(s: Option<seq<nat>>): seq<nat> {
    if s.Some? then s.value else []
  }

  /** Both ends of a link are arena tiles. */
  predicate LinkIn(l: Link, n: nat) {
    l.master < n && l.child < n
  }

  /**
   * One link applied: the master's child list is created if absent and
   * extended, then the child's `childOf` is set (on the same tile when
   * the two coincide). A link outside the arena changes nothing.
   */
  function Apply(a: seq<Tile>, l: Link): (b: seq<Tile>)
    ensures |b| == |a|
  {
    if LinkIn(l, |a|) then
      var t := a[l.master];
      var b := a[l.master := t.(childAnimationFrames := Some(OrEmpty(t.childAnimationFrames) + [l.child]))];
      b[l.child := b[l.child].(childOf := Some(l.master))]
    else a
  }

  /** The arena after the links `ls`, in order. */
  function ApplyAll(a: seq<Tile>, ls: seq<Link>): (b: seq<Tile>)
    ensures |b| == |a|
  {
    if ls == [] then a else Apply(ApplyAll(a, ls[..|ls| - 1]), ls[|ls| - 1])
  }

  /** The children the links add to tile `i`, in order. */
  function ChildrenOf(ls: seq<Link>, i: nat, n: nat): seq<nat> {
    if ls == [] then []
    else
      var l := ls[|ls| - 1];
      ChildrenOf(ls[..|ls| - 1], i, n) + (if LinkIn(l, n) && l.master == i then [l.child] else [])
  }

  /** The master of the last link to child `i`, if any. */
  function ParentOf(ls: seq<Link>, i: nat, n: nat): Option<nat> {
    if ls == [] then None
    else
      var l := ls[|ls| - 1];
      if LinkIn(l, n) && l.child == i then Some(l.master) else ParentOf(ls[..|ls| - 1], i, n)
  }

  /** Tile `t` with the children `cs` added and, when given, its master set. */
  function Linked(t: Tile, cs: seq<nat>, parent: Option<nat>): Tile {
    t.(childAnimationFrames := if cs == [] then t.childAnimationFrames else Some(OrEmpty(t.childAnimationFrames) + cs),
       childOf := if parent.Some? then parent else t.childOf)
  }

  /**
   * What the links do to each tile, however they alias: a tile gains, after
   * the children it had, those it is the master of, in link order; its
   * master becomes that of its last link as a child; nothing else changes.
   */
  lemma {:induction false} ApplyAllAt(a: seq<Tile>, ls: seq<Link>, i: nat)
    requires i < |a|
    ensures ApplyAll(a, ls)[i] == Linked(a[i], ChildrenOf(ls, i, |a|), ParentOf(ls, i, |a|))
  {
    if ls != [] {
      var init := ls[..|ls| - 1];
      var l := ls[|ls| - 1];
      ApplyAllAt(a, init, i);
      var b := ApplyAll(a, init);
      var cs := ChildrenOf(init, i, |a|);
      assert OrEmpty(b[i].childAnimationFrames) == OrEmpty(a[i].childAnimationFrames) + cs;
      if LinkIn(l, |a|) {
        var t := b[l.master];
        var b1 := b[l.master := t.(childAnimationFrames := Some(OrEmpty(t.childAnimationFrames) + [l.child]))];
        assert OrEmpty(a[i].childAnimationFrames) + cs + [l.child] == OrEmpty(a[i].childAnimationFrames) + (cs + [l.child]);
        assert b1[i] == if l.master == i then Linked(a[i], cs + [l.child], ParentOf(init, i, |a|)) else b[i];
        var b2 := b1[l.child := b1[l.child].(childOf := Some(l.master))];
        assert ApplyAll(a, ls) == b2;
        assert ChildrenOf(ls, i, |a|) == cs + (if l.master == i then [l.child] else []);
        assert ParentOf(ls, i, |a|) == if l.child == i then Some(l.master) else ParentOf(init, i, |a|);
        if l.child == i {
          assert b2[i] == b1[i].(childOf := Some(l.master));
        } else {
          assert b2[i] == b1[i];
        }
        assert cs + [] == cs;
      } else {
        assert cs + [] == cs;
      }
    }
  }

  /** Applying `ls` and then `ms` is applying `ls + ms`. */
  lemma {:induction false} ApplyAllAppend(a: seq<Tile>, ls: seq<Link>, ms: seq<Link>)
    ensures ApplyAll(a, ls + ms) == ApplyAll(ApplyAll(a, ls), ms)
  {
    if ms == [] {
      assert ls + ms == ls;
    } else {
      assert (ls + ms)[..|ls + ms| - 1] == ls + ms[..|ms| - 1];
      ApplyAllAppend(a, ls, ms[..|ms| - 1]);
    }
  }

  lemma {:induction false} ChildrenOfAppend(ls: seq<Link>, ms: seq<Link>, i: nat, n: nat)
    ensures ChildrenOf(ls + ms, i, n) == ChildrenOf(ls, i, n) + ChildrenOf(ms, i, n)
  {
    if ms == [] {
      assert ls + ms == ls;
    } else {
      assert (ls + ms)[..|ls + ms| - 1] == ls + ms[..|ms| - 1];
      ChildrenOfAppend(ls, ms[..|ms| - 1], i, n);
    }
  }

  lemma {:induction false} ParentOfAppend(ls: seq<Link>, ms: seq<Link>, i: nat, n: nat)
    ensures ParentOf(ls + ms, i, n) == if ParentOf(ms, i, n).Some? then ParentOf(ms, i, n) else ParentOf(ls, i, n)
  {
    if ms == [] {
      assert ls + ms == ls;
    } else {
      assert (ls + ms)[..|ls + ms| - 1] == ls + ms[..|ms| - 1];
      ParentOfAppend(ls, ms[..|ms| - 1], i, n);
    }
  }

  // ---------------------------------------------------------------------
  // The links of `applyChildTiles(masterFrame, childFrames)`

  /** The first `n` cells of a child row and the master row above them hold arena tiles. */
  predicate RowFits(mrow: seq<Option<nat>>, crow: seq<Option<nat>>, n: nat, size: nat) {
    n <= |crow| && n <= |mrow|
    && forall x :: 0 <= x < n ==> mrow[x].Some? && crow[x].Some? && mrow[x].value < size && crow[x].value < size
  }

  /** The first `m` rows of a child frame fit the master frame. */
  predicate FrameFits(master: Matrix, child: Matrix, m: nat, size: nat) {
    m <= |child| && m <= |master| && forall y :: 0 <= y < m ==> RowFits(master[y], child[y], |child[y]|, size)
  }

  /** The first `k` child frames fit the master frame. */
  predicate FramesFit(master: Matrix, children: seq<Matrix>, k: nat, size: nat) {
    k <= |children| && forall f :: 0 <= f < k ==> FrameFits(master, children[f], |children[f]|, size)
  }

  /** The links of the first `n` cells of one child row, in column order. */
  function RowLinks(mrow: seq<Option<nat>>, crow: seq<Option<nat>>, n: nat, size: nat): seq<Link>
    requires RowFits(mrow, crow, n, size)
  {
    if n == 0 then [] else RowLinks(mrow, crow, n - 1, size) + [Link(mrow[n - 1].value, crow[n - 1].value)]
  }

  /** The links of the first `m` rows of one child frame, row by row. */
  function FrameLinks(master: Matrix, child: Matrix, m: nat, size: nat): seq<Link>
    requires FrameFits(master, child, m, size)
  {
    if m == 0 then [] else FrameLinks(master, child, m - 1, size) + RowLinks(master[m - 1], child[m - 1], |child[m - 1]|, size)
  }

  /** The links of the first `k` child frames, frame by frame: the three nested loops. */
  function ChildLinks(master: Matrix, children: seq<Matrix>, k: nat, size: nat): seq<Link>
    requires FramesFit(master, children, k, size)
  {
    if k == 0 then [] else ChildLinks(master, children, k - 1, size) + FrameLinks(master, children[k - 1], |children[k - 1]|, size)
  }

  // ---------------------------------------------------------------------
  // Whom the links make masters and children

  lemma {:induction false} RowNoChildren(mrow: seq<Option<nat>>, crow: seq<Option<nat>>, n: nat, size: nat, i: nat)
    requires RowFits(mrow, crow, n, size)
    requires forall x :: 0 <= x < n ==> mrow[x] != Some(i)
    ensures ChildrenOf(RowLinks(mrow, crow, n, size), i, size) == []
  {
    if n > 0 {
      RowNoChildren(mrow, crow, n - 1, size, i);
      ChildrenOfAppend(RowLinks(mrow, crow, n - 1, size), [Link(mrow[n - 1].value, crow[n - 1].value)], i, size);
    }
  }

  lemma {:induction false} RowChildren(mrow: seq<Option<nat>>, crow: seq<Option<nat>>, n: nat, size: nat, x: nat)
    requires RowFits(mrow, crow, n, size) && x < n
    requires forall x2 :: 0 <= x2 < n && x2 != x ==> mrow[x2] != mrow[x]
    ensures ChildrenOf(RowLinks(mrow, crow, n, size), mrow[x].value, size) == [crow[x].value]
  {
    ChildrenOfAppend(RowLinks(mrow, crow, n - 1, size), [Link(mrow[n - 1].value, crow[n - 1].value)], mrow[x].value, size);
    if x < n - 1 {
      RowChildren(mrow, crow, n - 1, size, x);
    } else {
      RowNoChildren(mrow, crow, n - 1, size, mrow[x].value);
    }
  }

  lemma {:induction false} FrameNoChildren(master: Matrix, child: Matrix, m: nat, size: nat, i: nat)
    requires FrameFits(master, child, m, size)
    requires forall y, x :: 0 <= y < m && 0 <= x < |child[y]| ==> master[y][x] != Some(i)
    ensures ChildrenOf(FrameLinks(master, child, m, size), i, size) == []
  {
    if m > 0 {
      FrameNoChildren(master, child, m - 1, size, i);
      assert RowFits(master[m - 1], child[m - 1], |child[m - 1]|, size);
      var last, mlast := child[m - 1], master[m - 1];
      assert forall x :: 0 <= x < |last| ==> mlast[x] != Some(i);
      RowNoChildren(master[m - 1], child[m - 1], |child[m - 1]|, size, i);
      ChildrenOfAppend(FrameLinks(master, child, m - 1, size), RowLinks(master[m - 1], child[m - 1], |child[m - 1]|, size), i, size);
    }
  }

  lemma {:induction false} FrameChildren(master: Matrix, child: Matrix, m: nat, size: nat, y: nat, x: nat)
    requires FrameFits(master, child, m, size) && y < m && x < |child[y]|
    requires forall y2, x2 :: 0 <= y2 < m && 0 <= x2 < |child[y2]| && (y2 != y || x2 != x) ==> master[y2][x2] != master[y][x]
    ensures master[y][x].Some? && child[y][x].Some?
    ensures ChildrenOf(FrameLinks(master, child, m, size), master[y][x].value, size) == [child[y][x].value]
  {
    assert RowFits(master[y], child[y], |child[y]|, size);
    var i := master[y][x].value;
    var row := RowLinks(master[m - 1], child[m - 1], |child[m - 1]|, size);
    ChildrenOfAppend(FrameLinks(master, child, m - 1, size), row, i, size);
    if y < m - 1 {
      FrameChildren(master, child, m - 1, size, y, x);
      assert RowFits(master[m - 1], child[m - 1], |child[m - 1]|, size);
      var last, mlast := child[m - 1], master[m - 1];
      assert forall x2 :: 0 <= x2 < |last| ==> mlast[x2] != Some(i);
      RowNoChildren(master[m - 1], child[m - 1], |child[m - 1]|, size, i);
    } else {
      FrameNoChildren(master, child, m - 1, size, i);
      RowChildren(master[y], child[y], |child[y]|, size, x);
    }
  }

  /** No cell of the master frame holds tile `i`. */
  predicate NotInMatrix(tiles: Matrix, i: nat) {
    forall y, x :: 0 <= y < |tiles| && 0 <= x < |tiles[y]| ==> tiles[y][x] != Some(i)
  }

  lemma {:induction false} NoChildren(master: Matrix, children: seq<Matrix>, k: nat, size: nat, i: nat)
    requires FramesFit(master, children, k, size) && NotInMatrix(master, i)
    ensures ChildrenOf(ChildLinks(master, children, k, size), i, size) == []
  {
    if k > 0 {
      NoChildren(master, children, k - 1, size, i);
      var c := children[k - 1];
      assert FrameFits(master, c, |c|, size);
      forall y, x | 0 <= y < |c| && 0 <= x < |c[y]|
        ensures master[y][x] != Some(i)
      {
        assert RowFits(master[y], c[y], |c[y]|, size);
      }
      FrameNoChildren(master, c, |c|, size, i);
      ChildrenOfAppend(ChildLinks(master, children, k - 1, size), FrameLinks(master, c, |c|, size), i, size);
    }
  }

  /** The tile at cell `(y, x)` of a matrix is at no other of its cells. */
  predicate UniqueCell(tiles: Matrix, y: nat, x: nat)
    requires y < |tiles| && x < |tiles[y]|
  {
    forall y2, x2 :: 0 <= y2 < |tiles| && 0 <= x2 < |tiles[y2]| && (y2 != y || x2 != x) ==> tiles[y2][x2] != tiles[y][x]
  }

  /** Every one of the first `k` child frames has cell `(y, x)`. */
  predicate CoversCell(children: seq<Matrix>, k: nat, y: nat, x: nat)
    requires k <= |children|
  {
    forall f :: 0 <= f < k ==> y < |children[f]| && x < |children[f][y]|
  }

  /** A master tile at no other master cell is at no other cell a child frame covers. */
  lemma {:induction false} MasterDistinctOn(master: Matrix, c: Matrix, size: nat, y: nat, x: nat)
    requires FrameFits(master, c, |c|, size) && y < |master| && x < |master[y]| && UniqueCell(master, y, x)
    ensures forall y2, x2 :: 0 <= y2 < |c| && 0 <= x2 < |c[y2]| && (y2 != y || x2 != x) ==> master[y2][x2] != master[y][x]
  {
    forall y2, x2 | 0 <= y2 < |c| && 0 <= x2 < |c[y2]| && (y2 != y || x2 != x)
      ensures master[y2][x2] != master[y][x]
    {
      assert RowFits(master[y2], c[y2], |c[y2]|, size);
    }
  }

  /** The tiles at cell `(y, x)` of the first `k` child frames, in frame order. */
  function Column(master: Matrix, children: seq<Matrix>, k: nat, size: nat, y: nat, x: nat): (col: seq<nat>)
    requires FramesFit(master, children, k, size) && CoversCell(children, k, y, x)
    ensures |col| == k
  {
    if k == 0 then []
    else
      assert FrameFits(master, children[k - 1], |children[k - 1]|, size);
      assert RowFits(master[y], children[k - 1][y], |children[k - 1][y]|, size);
      Column(master, children, k - 1, size, y, x) + [children[k - 1][y][x].value]
  }

  /** Entry `f` of a column is the tile at that cell of child frame `f`. */
  lemma {:induction false} ColumnAt(master: Matrix, children: seq<Matrix>, k: nat, size: nat, y: nat, x: nat, f: nat)
    requires FramesFit(master, children, k, size) && CoversCell(children, k, y, x) && f < k
    ensures Some(Column(master, children, k, size, y, x)[f]) == children[f][y][x]
  {
    assert FrameFits(master, children[f], |children[f]|, size);
    assert RowFits(master[y], children[f][y], |children[f][y]|, size);
    if f < k - 1 {
      assert FramesFit(master, children, k - 1, size) && CoversCell(children, k - 1, y, x);
      ColumnAt(master, children, k - 1, size, y, x, f);
    }
  }

  /**
   * The links make a master tile that sits at one cell only, and that
   * every child frame covers, the master of the column of tiles below
   * it, in frame order.
   */
  lemma {:induction false} AllChildren(master: Matrix, children: seq<Matrix>, k: nat, size: nat, y: nat, x: nat)
    requires FramesFit(master, children, k, size)
    requires y < |master| && x < |master[y]| && master[y][x].Some? && UniqueCell(master, y, x)
    requires CoversCell(children, k, y, x)
    ensures ChildrenOf(ChildLinks(master, children, k, size), master[y][x].value, size) == Column(master, children, k, size, y, x)
  {
    if k > 0 {
      var i := master[y][x].value;
      var c := children[k - 1];
      assert FramesFit(master, children, k - 1, size) && CoversCell(children, k - 1, y, x);
      AllChildren(master, children, k - 1, size, y, x);
      assert FrameFits(master, c, |c|, size) && y < |c| && x < |c[y]|;
      MasterDistinctOn(master, c, size, y, x);
      FrameChildren(master, c, |c|, size, y, x);
      ChildrenOfAppend(ChildLinks(master, children, k - 1, size), FrameLinks(master, c, |c|, size), i, size);
    }
  }

  lemma {:induction false} RowNoParent(mrow: seq<Option<nat>>, crow: seq<Option<nat>>, n: nat, size: nat, i: nat)
    requires RowFits(mrow, crow, n, size)
    requires forall x :: 0 <= x < n ==> crow[x] != Some(i)
    ensures ParentOf(RowLinks(mrow, crow, n, size), i, size) == None
  {
    if n > 0 {
      RowNoParent(mrow, crow, n - 1, size, i);
      ParentOfAppend(RowLinks(mrow, crow, n - 1, size), [Link(mrow[n - 1].value, crow[n - 1].value)], i, size);
    }
  }

  lemma {:induction false} RowParent(mrow: seq<Option<nat>>, crow: seq<Option<nat>>, n: nat, size: nat, x: nat)
    requires RowFits(mrow, crow, n, size) && x < n
    requires forall x2 :: 0 <= x2 < n && x2 != x ==> crow[x2] != crow[x]
    ensures ParentOf(RowLinks(mrow, crow, n, size), crow[x].value, size) == Some(mrow[x].value)
  {
    ParentOfAppend(RowLinks(mrow, crow, n - 1, size), [Link(mrow[n - 1].value, crow[n - 1].value)], crow[x].value, size);
    if x < n - 1 {
      RowParent(mrow, crow, n - 1, size, x);
    }
  }

  lemma {:induction false} FrameNoParent(master: Matrix, child: Matrix, m: nat, size: nat, i: nat)
    requires FrameFits(master, child, m, size)
    requires forall y, x :: 0 <= y < m && 0 <= x < |child[y]| ==> child[y][x] != Some(i)
    ensures ParentOf(FrameLinks(master, child, m, size), i, size) == None
  {
    if m > 0 {
      FrameNoParent(master, child, m - 1, size, i);
      assert RowFits(master[m - 1], child[m - 1], |child[m - 1]|, size);
      var last := child[m - 1];
      assert forall x :: 0 <= x < |last| ==> last[x] != Some(i);
      RowNoParent(master[m - 1], child[m - 1], |child[m - 1]|, size, i);
      ParentOfAppend(FrameLinks(master, child, m - 1, size), RowLinks(master[m - 1], child[m - 1], |child[m - 1]|, size), i, size);
    }
  }

  lemma {:induction false} FrameParent(master: Matrix, child: Matrix, m: nat, size: nat, y: nat, x: nat)
    requires FrameFits(master, child, m, size) && y < m && x < |child[y]|
    requires forall y2, x2 :: 0 <= y2 < m && 0 <= x2 < |child[y2]| && (y2 != y || x2 != x) ==> child[y2][x2] != child[y][x]
    ensures master[y][x].Some? && child[y][x].Some?
    ensures ParentOf(FrameLinks(master, child, m, size), child[y][x].value, size) == Some(master[y][x].value)
  {
    assert RowFits(master[y], child[y], |child[y]|, size);
    var i := child[y][x].value;
    var row := RowLinks(master[m - 1], child[m - 1], |child[m - 1]|, size);
    ParentOfAppend(FrameLinks(master, child, m - 1, size), row, i, size);
    if y < m - 1 {
      FrameParent(master, child, m - 1, size, y, x);
      assert RowFits(master[m - 1], child[m - 1], |child[m - 1]|, size);
      var last := child[m - 1];
      assert forall x2 :: 0 <= x2 < |last| ==> last[x2] != Some(i);
      RowNoParent(master[m - 1], child[m - 1], |child[m - 1]|, size, i);
    } else {
      RowParent(master[y], child[y], |child[y]|, size, x);
    }
  }

  /** No cell of the first `k` child frames holds tile `i`. */
  predicate NotAChild(children: seq<Matrix>, k: nat, i: nat)
    requires k <= |children|
  {
    forall f, y, x :: 0 <= f < k && 0 <= y < |children[f]| && 0 <= x < |children[f][y]| ==> children[f][y][x] != Some(i)
  }

  lemma {:induction false} NoParent(master: Matrix, children: seq<Matrix>, k: nat, size: nat, i: nat)
    requires FramesFit(master, children, k, size) && NotAChild(children, k, i)
    ensures ParentOf(ChildLinks(master, children, k, size), i, size) == None
  {
    if k > 0 {
      assert FramesFit(master, children, k - 1, size) && NotAChild(children, k - 1, i);
      NoParent(master, children, k - 1, size, i);
      var c := children[k - 1];
      assert FrameFits(master, c, |c|, size);
      assert forall y, x :: 0 <= y < |c| && 0 <= x < |c[y]| ==> c[y][x] != Some(i);
      FrameNoParent(master, c, |c|, size, i);
      ParentOfAppend(ChildLinks(master, children, k - 1, size), FrameLinks(master, c, |c|, size), i, size);
    }
  }

  /** The tile at cell `(y, x)` of child frame `f` is at no other cell of the first `k` child frames. */
  predicate UniqueChild(children: seq<Matrix>, k: nat, f: nat, y: nat, x: nat)
    requires f < k <= |children| && y < |children[f]| && x < |children[f][y]|
  {
    forall f2, y2, x2 :: 0 <= f2 < k && 0 <= y2 < |children[f2]| && 0 <= x2 < |children[f2][y2]|
      && (f2 != f || y2 != y || x2 != x)
      ==> children[f2][y2][x2] != children[f][y][x]
  }

  /** A child tile that appears once is linked to the master at its cell. */
  lemma {:induction false} AllParent(master: Matrix, children: seq<Matrix>, k: nat, size: nat, f: nat, y: nat, x: nat)
    requires FramesFit(master, children, k, size) && f < k && y < |children[f]| && x < |children[f][y]|
    requires UniqueChild(children, k, f, y, x)
    ensures master[y][x].Some? && children[f][y][x].Some?
    ensures ParentOf(ChildLinks(master, children, k, size), children[f][y][x].value, size) == Some(master[y][x].value)
  {
    var c := children[k - 1];
    var i := children[f][y][x];
    assert FrameFits(master, children[f], |children[f]|, size);
    assert RowFits(master[y], children[f][y], |children[f][y]|, size);
    ParentOfAppend(ChildLinks(master, children, k - 1, size), FrameLinks(master, c, |c|, size), i.value, size);
    if f < k - 1 {
      assert UniqueChild(children, k - 1, f, y, x);
      AllParent(master, children, k - 1, size, f, y, x);
      assert forall y2, x2 :: 0 <= y2 < |c| && 0 <= x2 < |c[y2]| ==> c[y2][x2] != i;
      FrameNoParent(master, c, |c|, size, i.value);
    } else {
      FrameParent(master, c, |c|, size, y, x);
    }
  }

  /** A master `i` that sits at one cell, is no child and has that cell in every child frame gains the column below it. */
  lemma {:induction false} MasterLinked(a: seq<Tile>, master: Matrix, children: seq<Matrix>, k: nat, y: nat, x: nat, i: nat)
    requires FramesFit(master, children, k, |a|)
    requires y < |master| && x < |master[y]| && master[y][x] == Some(i) && i < |a| && UniqueCell(master, y, x)
    requires CoversCell(children, k, y, x) && NotAChild(children, k, i)
    ensures ApplyAll(a, ChildLinks(master, children, k, |a|))[i] == Linked(a[i], Column(master, children, k, |a|, y, x), None)
  {
    ApplyAllAt(a, ChildLinks(master, children, k, |a|), i);
    AllChildren(master, children, k, |a|, y, x);
    NoParent(master, children, k, |a|, i);
  }

  /** A child `i` that sits at one cell and is no master gets the master at its cell. */
  lemma {:induction false} ChildLinked(a: seq<Tile>, master: Matrix, children: seq<Matrix>, k: nat, f: nat, y: nat, x: nat, i: nat)
    requires FramesFit(master, children, k, |a|) && f < k && y < |children[f]| && x < |children[f][y]|
    requires UniqueChild(children, k, f, y, x)
    requires children[f][y][x] == Some(i) && i < |a| && NotInMatrix(master, i)
    ensures ApplyAll(a, ChildLinks(master, children, k, |a|))[i] == a[i].(childOf := master[y][x])
  {
    ApplyAllAt(a, ChildLinks(master, children, k, |a|), i);
    AllParent(master, children, k, |a|, f, y, x);
    NoChildren(master, children, k, |a|, i);
  }

  /** A tile that is neither a master nor a child is left as it was. */
  lemma {:induction false} UnlinkedUntouched(a: seq<Tile>, master: Matrix, children: seq<Matrix>, k: nat, i: nat)
    requires FramesFit(master, children, k, |a|) && i < |a| && NotInMatrix(master, i) && NotAChild(children, k, i)
    ensures ApplyAll(a, ChildLinks(master, children, k, |a|))[i] == a[i]
  {
    ApplyAllAt(a, ChildLinks(master, children, k, |a|), i);
    NoChildren(master, children, k, |a|, i);
    NoParent(master, children, k, |a|, i);
  }

  // ---------------------------------------------------------------------
  // `applyChildTiles`

  lemma {:induction false} ApplyAllSnoc(a: seq<Tile>, ls: seq<Link>, l: Link)
    ensures ApplyAll(a, ls + [l]) == Apply(ApplyAll(a, ls), l)
  {
    assert (ls + [l])[..|ls|] == ls;
  }

  /** The innermost loop: every cell of one child row linked to the master cell above it. */
  method LinkRow(arena: array<Tile>, mrow: seq<Option<nat>>, crow: seq<Option<nat>>)
    requires RowFits(mrow, crow, |crow|, arena.Length)
    modifies arena
    ensures arena[..] == ApplyAll(old(arena[..]), RowLinks(mrow, crow, |crow|, arena.Length))
  {
    ghost var a := arena[..];
    for x := 0 to |crow|
      invariant RowFits(mrow, crow, x, arena.Length)
      invariant arena[..] == ApplyAll(a, RowLinks(mrow, crow, x, arena.Length))
    {
      var m, c := mrow[x].value, crow[x].value;
      ApplyAllSnoc(a, RowLinks(mrow, crow, x, arena.Length), Link(m, c));
      LinkCell(arena, m, c);
    }
  }

  /** The body of the innermost loop: `??= []`, the push, then `childOf`. */
  method LinkCell(arena: array<Tile>, m: nat, c: nat)
    requires m < arena.Length && c < arena.Length
    modifies arena
    ensures arena[..] == Apply(old(arena[..]), Link(m, c))
  {
    if arena[m].childAnimationFrames.None? {
      arena[m] := arena[m].(childAnimationFrames := Some([]));
    }
    arena[m] := arena[m].(childAnimationFrames := Some(arena[m].childAnimationFrames.value + [c]));
    arena[c] := arena[c].(childOf := Some(m));
  }

  /** The middle loop: every row of one child frame. */
  method LinkFrame(arena: array<Tile>, master: Matrix, child: Matrix)
    requires FrameFits(master, child, |child|, arena.Length)
    modifies arena
    ensures arena[..] == ApplyAll(old(arena[..]), FrameLinks(master, child, |child|, arena.Length))
  {
    ghost var a := arena[..];
    for y := 0 to |child|
      invariant arena[..] == ApplyAll(a, FrameLinks(master, child, y, arena.Length))
    {
      LinkFrameRow(arena, a, master, child, y);
    }
  }

  /** One pass of the middle loop: row `y` of the child frame. */
  method LinkFrameRow(arena: array<Tile>, ghost a: seq<Tile>, master: Matrix, child: Matrix, y: nat)
    requires FrameFits(master, child, |child|, arena.Length) && y < |child|
    requires arena[..] == ApplyAll(a, FrameLinks(master, child, y, arena.Length))
    modifies arena
    ensures arena[..] == ApplyAll(a, FrameLinks(master, child, y + 1, arena.Length))
  {
    ghost var done := FrameLinks(master, child, y, arena.Length);
    assert RowFits(master[y], child[y], |child[y]|, arena.Length);
    LinkRow(arena, master[y], child[y]);
    ApplyAllAppend(a, done, RowLinks(master[y], child[y], |child[y]|, arena.Length));
  }

  /**
   * `applyChildTiles(masterFrame, childFrames)`: for every child frame,
   * row and column, the master tile at that cell gets the child tile
   * appended to its `childAnimationFrames` (created empty if absent), and
   * the child tile's `childOf` becomes the master.
   */
  method ApplyChildTiles(arena: array<Tile>, masterFrame: Matrix, childFrames: seq<Matrix>)
    requires FramesFit(masterFrame, childFrames, |childFrames|, arena.Length)
    modifies arena
    ensures arena[..] == ApplyAll(old(arena[..]), ChildLinks(masterFrame, childFrames, |childFrames|, arena.Length))
  {
    ghost var a := arena[..];
    for f := 0 to |childFrames|
      invariant FramesFit(masterFrame, childFrames, f, arena.Length)
      invariant arena[..] == ApplyAll(a, ChildLinks(masterFrame, childFrames, f, arena.Length))
    {
      ghost var done := ChildLinks(masterFrame, childFrames, f, arena.Length);
      assert FrameFits(masterFrame, childFrames[f], |childFrames[f]|, arena.Length);
      LinkFrame(arena, masterFrame, childFrames[f]);
      ApplyAllAppend(a, done, FrameLinks(masterFrame, childFrames[f], |childFrames[f]|, arena.Length));
    }
  }
}
