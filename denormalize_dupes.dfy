/**
 * `denormalizeDupes`: on a deep clone of the tile matrices, every
 * duplicate takes over the slot index (`cromIndex` or `sromIndex`) of the
 * tile it duplicates, so later stages can ignore `duplicateOf`.
 *
 * The tiles live in an arena; a matrix cell is `None` (null) or the arena
 * index of its tile. The deep clone keeps shared references shared, so it
 * is a copy of the arena with the matrices unchanged.
 */
module Denormalize {
  import opened Wrappers
  import opened Tiles
  import Dupes

  /** The index field named by `indexProp`. */
  datatype IndexProp = CromIndexProp | SromIndexProp

  /** `tile[indexProp]`. */
  function GetIndex(t: Tile, p: IndexProp): Option<int> {
    match p
    case CromIndexProp => t.cromIndex
    case SromIndexProp => t.sromIndex
  }

  /** `tile[indexProp] = v`. */
  function SetIndex(t: Tile, p: IndexProp, v: Option<int>): (r: Tile)
    ensures GetIndex(r, p) == v
  {
    match p
    case CromIndexProp => t.(cromIndex := v)
    case SromIndexProp => t.(sromIndex := v)
  }

  /** The body of the innermost `forEach` for the tile at arena index `v`. */
  function Visit(a: seq<Tile>, v: nat, p: IndexProp): (r: seq<Tile>)
    ensures |r| == |a|
  {
    if v < |a| && a[v].duplicateOf.Some? && a[v].duplicateOf.value < |a| then
      a[v := SetIndex(a[v], p, GetIndex(a[a[v].duplicateOf.value], p))]
    else a
  }

  /** The clone after visiting `vs` in order. */
  function Denormalized(a: seq<Tile>, vs: seq<nat>, p: IndexProp): (r: seq<Tile>)
    ensures |r| == |a|
  {
    if vs == [] then a else Visit(Denormalized(a, vs[..|vs| - 1], p), vs[|vs| - 1], p)
  }

  /** Every duplicate link names an arena tile. */
  predicate LinksIn(a: seq<Tile>) {
    forall j :: 0 <= j < |a| && a[j].duplicateOf.Some? ==> a[j].duplicateOf.value < |a|
  }

  /**
   * `denormalizeDupes`: clone the arena, then walk the matrices and give
   * each duplicate its target's current index. The input arena is left
   * as it was.
   */
  method DenormalizeDupes(images: seq<Matrix>, tiles: array<Tile>, p: IndexProp) returns (cloned: array<Tile>)
    requires CellsIn(images, tiles.Length) && LinksIn(tiles[..])
    ensures fresh(cloned)
    ensures cloned[..] == Denormalized(tiles[..], Visits(images), p)
  {
    cloned := new Tile[tiles.Length](j requires 0 <= j < tiles.Length reads tiles => tiles[j]);
    ghost var a := tiles[..];
    assert cloned[..] == a;
    for i := 0 to |images|
      invariant cloned[..] == Denormalized(a, Visits(images[..i]), p)
    {
      ghost var before := cloned[..];
      DenormalizedLinks(a, Visits(images[..i]), p);
      VisitImage(images[i], cloned, p);
      VisitsSnoc(images, i);
      DenormalizedAppend(a, Visits(images[..i]), RowVisits(images[i]), p);
    }
    assert images[..|images|] == images;
  }

  /** The middle `forEach`: the rows of one matrix in order. */
  method VisitImage(image: Matrix, cloned: array<Tile>, p: IndexProp)
    requires forall r, c :: 0 <= r < |image| && 0 <= c < |image[r]| && image[r][c].Some? ==> image[r][c].value < cloned.Length
    requires LinksIn(cloned[..])
    modifies cloned
    ensures cloned[..] == Denormalized(old(cloned[..]), RowVisits(image), p)
  {
    ghost var a := cloned[..];
    for r := 0 to |image|
      invariant cloned[..] == Denormalized(a, RowVisits(image[..r]), p)
    {
      DenormalizedLinks(a, RowVisits(image[..r]), p);
      VisitRow(image[r], cloned, p);
      RowVisitsSnoc(image, r);
      DenormalizedAppend(a, RowVisits(image[..r]), CellVisits(image[r]), p);
    }
    assert image[..|image|] == image;
  }

  /** The innermost `forEach`: the cells of one row in order. */
  method VisitRow(row: seq<Option<nat>>, cloned: array<Tile>, p: IndexProp)
    requires forall c :: 0 <= c < |row| && row[c].Some? ==> row[c].value < cloned.Length
    requires LinksIn(cloned[..])
    modifies cloned
    ensures cloned[..] == Denormalized(old(cloned[..]), CellVisits(row), p)
  {
    ghost var a := cloned[..];
    for c := 0 to |row|
      invariant cloned[..] == Denormalized(a, CellVisits(row[..c]), p)
    {
      ghost var before := CellVisits(row[..c]);
      CellVisitsSnoc(row, c);
      if row[c].Some? {
        var v := row[c].value;
        VisitsStep(a, before, v, p);
        DenormalizedLinks(a, before, p);
        ghost var mid := cloned[..];
        if cloned[v].duplicateOf.Some? {
          var target := cloned[v].duplicateOf.value;
          assert target < cloned.Length by {
            assert mid[v].duplicateOf == a[v].duplicateOf;
          }
          cloned[v] := SetIndex(cloned[v], p, GetIndex(cloned[target], p));
          assert cloned[..] == mid[v := SetIndex(mid[v], p, GetIndex(mid[target], p))];
        }
        assert cloned[..] == Visit(mid, v, p);
        assert cloned[..] == Denormalized(a, before + [v], p);
        assert CellVisits(row[..c + 1]) == before + [v];
      } else {
        assert CellVisits(row[..c + 1]) == before + [];
        assert before + [] == before;
      }
    }
    assert row[..|row|] == row;
  }

  /** Visiting `vs` and then `ws` is visiting `vs + ws`. */
  lemma {:induction false} DenormalizedAppend(a: seq<Tile>, vs: seq<nat>, ws: seq<nat>, p: IndexProp)
    ensures Denormalized(a, vs + ws, p) == Denormalized(Denormalized(a, vs, p), ws, p)
  {
    if ws == [] {
      assert vs + ws == vs;
    } else {
      var ws' := ws[..|ws| - 1];
      DenormalizedAppend(a, vs, ws', p);
      assert (vs + ws)[..|vs + ws| - 1] == vs + ws';
    }
  }

  lemma {:induction false} VisitsStep(a: seq<Tile>, vs: seq<nat>, v: nat, p: IndexProp)
    ensures Denormalized(a, vs + [v], p) == Visit(Denormalized(a, vs, p), v, p)
  {
    assert (vs + [v])[..|vs|] == vs;
  }

  /** Visiting keeps every duplicate link as it was. */
  lemma {:induction false} DenormalizedLinks(a: seq<Tile>, vs: seq<nat>, p: IndexProp)
    ensures forall j :: 0 <= j < |a| ==> Denormalized(a, vs, p)[j].duplicateOf == a[j].duplicateOf
  {
    if vs != [] {
      DenormalizedLinks(a, vs[..|vs| - 1], p);
    }
  }

  /**
   * Tile `j` of the clone differs from the original at most in the index
   * field; a tile that is not visited or is no duplicate is unchanged.
   */
  lemma {:induction false} DenormalizedAt(a: seq<Tile>, vs: seq<nat>, p: IndexProp, j: nat)
    requires j < |a|
    ensures Denormalized(a, vs, p)[j] == SetIndex(a[j], p, GetIndex(Denormalized(a, vs, p)[j], p))
    ensures a[j].duplicateOf.None? || j !in vs ==> Denormalized(a, vs, p)[j] == a[j]
  {
    if vs != [] {
      var vs' := vs[..|vs| - 1];
      DenormalizedAt(a, vs', p, j);
      DenormalizedLinks(a, vs', p);
      assert j !in vs ==> j !in vs' && j != vs[|vs| - 1];
      match p
      case CromIndexProp =>
      case SromIndexProp =>
    }
  }

  /**
   * One hop: when no target is itself a duplicate (what `markDupes`
   * produces), every visited duplicate ends with its target's original
   * index.
   */
  lemma {:induction false} OneHop(a: seq<Tile>, vs: seq<nat>, p: IndexProp, j: nat)
    requires LinksIn(a) && j < |a| && j in vs && a[j].duplicateOf.Some?
    requires forall k :: 0 <= k < |a| && a[k].duplicateOf.Some? ==> a[a[k].duplicateOf.value].duplicateOf.None?
    ensures GetIndex(Denormalized(a, vs, p)[j], p) == GetIndex(a[a[j].duplicateOf.value], p)
  {
    var vs' := vs[..|vs| - 1];
    var v := vs[|vs| - 1];
    var d := a[j].duplicateOf.value;
    DenormalizedLinks(a, vs', p);
    DenormalizedAt(a, vs', p, d);
    if v != j {
      assert j in vs';
      OneHop(a, vs', p, j);
    }
  }

  /** The clone of an arena in which no tile is a duplicate is the arena itself. */
  lemma {:induction false} NoDupesNoChange(a: seq<Tile>, vs: seq<nat>, p: IndexProp)
    requires forall j :: 0 <= j < |a| ==> a[j].duplicateOf.None?
    ensures Denormalized(a, vs, p) == a
  {
    if vs != [] {
      NoDupesNoChange(a, vs[..|vs| - 1], p);
    }
  }

  /**
   * The pipeline order: over tiles marked by `markDupes` with a payload
   * comparator, starting from no marks, every visited duplicate ends with
   * the index of the tile it duplicates.
   */
  lemma {:induction false} DenormalizeMarked(s: seq<Tile>, cmp: Dupes.Comparator, vs: seq<nat>, p: IndexProp, j: nat)
    requires Dupes.Symmetric(cmp) && Dupes.LinkBlind(cmp)
    requires forall k :: 0 <= k < |s| ==> s[k].duplicateOf.None?
    requires j < |s| && j in vs && Dupes.Marked(s, cmp)[j].duplicateOf.Some?
    ensures var d := Dupes.Marked(s, cmp)[j].duplicateOf.value;
            d < |s| && GetIndex(Denormalized(Dupes.Marked(s, cmp), vs, p)[j], p) == GetIndex(s[d], p)
  {
    var m := Dupes.Marked(s, cmp);
    forall k | 0 <= k < |s| && m[k].duplicateOf.Some?
      ensures m[k].duplicateOf.value < |m| && m[m[k].duplicateOf.value].duplicateOf.None?
    {
      Dupes.ShapeAt(s, |s|, cmp, k);
      Dupes.MarkedTargets(s, cmp, k, m[k].duplicateOf.value);
    }
    OneHop(m, vs, p, j);
    var d := m[j].duplicateOf.value;
    Dupes.ShapeAt(s, |s|, cmp, j);
    Dupes.ShapeAt(s, |s|, cmp, d);
    assert GetIndex(m[d], p) == GetIndex(Dupes.Unlinked(m[d]), p);
    assert GetIndex(s[d], p) == GetIndex(Dupes.Unlinked(s[d]), p);
  }
}
