/**
 * `markDupes`: every tile that is not yet a duplicate claims, as its
 * duplicates, all other unmarked tiles its comparator matches. The tiles
 * live in an arena array; `duplicateOf` holds the position of the tile a
 * duplicate points to.
 */
module Dupes {
  import opened Wrappers
  import opened Tiles

  /** The comparator, applied as `comparator(tile, otherTile)`. */
  type Comparator = (Tile, Tile) -> bool

  /** The filter's test: tile `j` is another tile, not yet marked, that tile `i` matches. */
  predicate Matches(s: seq<Tile>, i: nat, j: nat, cmp: Comparator)
    requires i < |s| && j < |s|
  {
    j != i && s[j].duplicateOf.None? && cmp(s[i], s[j])
  }

  /** `tiles.filter(...)` over the first `n` tiles: the positions that match tile `i`, in order. */
  function Matching(s: seq<Tile>, i: nat, cmp: Comparator, n: nat): (r: seq<nat>)
    requires i < |s| && n <= |s|
    ensures forall k :: 0 <= k < |r| ==> r[k] < n && Matches(s, i, r[k], cmp)
    ensures forall j :: 0 <= j < n && Matches(s, i, j, cmp) ==> j in r
    ensures forall a, b :: 0 <= a < b < |r| ==> r[a] < r[b]
  {
    if n == 0 then []
    else if Matches(s, i, n - 1, cmp) then Matching(s, i, cmp, n - 1) + [n - 1]
    else Matching(s, i, cmp, n - 1)
  }

  /** One round of the `forEach`: what visiting tile `i` leaves behind. */
  function MarkStep(s: seq<Tile>, i: nat, cmp: Comparator): (r: seq<Tile>)
    requires i < |s|
    ensures |r| == |s|
  {
    if s[i].duplicateOf.Some? then s
    else
      seq(|s|, j requires 0 <= j < |s| =>
        if Matches(s, i, j, cmp) then s[j].(duplicateOf := Some(i)) else s[j])
  }

  /** The tiles after the first `n` rounds. */
  function MarkedUpTo(s: seq<Tile>, n: nat, cmp: Comparator): (r: seq<Tile>)
    requires n <= |s|
    ensures |r| == |s|
  {
    if n == 0 then s else MarkStep(MarkedUpTo(s, n - 1, cmp), n - 1, cmp)
  }

  /** `markDupes` over the whole array. */
  function Marked(s: seq<Tile>, cmp: Comparator): (r: seq<Tile>)
    ensures |r| == |s|
  {
    MarkedUpTo(s, |s|, cmp)
  }

  /**
   * `markDupes`: for each tile in order that is not yet a duplicate, the
   * matching tiles are collected first and then all pointed at it.
   */
  method MarkDupes(tiles: array<Tile>, cmp: Comparator)
    modifies tiles
    ensures tiles[..] == Marked(old(tiles[..]), cmp)
  {
    for i := 0 to tiles.Length
      invariant tiles[..] == MarkedUpTo(old(tiles[..]), i, cmp)
    {
      if tiles[i].duplicateOf.None? {
        ghost var before := tiles[..];
        var matchingTiles := Matching(tiles[..], i, cmp, tiles.Length);
        PointAt(tiles, matchingTiles, i);
        MarkStepPointwise(before, i, cmp, tiles[..]);
      }
    }
  }

  /** The inner `forEach`: every listed tile now points at tile `i`, and no other tile changes. */
  method PointAt(tiles: array<Tile>, list: seq<nat>, i: nat)
    requires forall k :: 0 <= k < |list| ==> list[k] < tiles.Length
    requires forall a, b :: 0 <= a < b < |list| ==> list[a] < list[b]
    modifies tiles
    ensures forall j :: 0 <= j < tiles.Length ==>
              tiles[j] == if j in list then old(tiles[j]).(duplicateOf := Some(i)) else old(tiles[j])
  {
    for m := 0 to |list|
      invariant forall j :: 0 <= j < tiles.Length ==>
                  tiles[j] == if j in list[..m] then old(tiles[j]).(duplicateOf := Some(i)) else old(tiles[j])
    {
      var mt := list[m];
      assert mt !in list[..m];
      assert list[..m + 1] == list[..m] + [mt];
      tiles[mt] := tiles[mt].(duplicateOf := Some(i));
    }
    assert list[..|list|] == list;
  }

  /** Pointing the matching tiles at an unmarked tile `i` is one round. */
  lemma {:induction false} MarkStepPointwise(s: seq<Tile>, i: nat, cmp: Comparator, t: seq<Tile>)
    requires i < |s| && s[i].duplicateOf.None? && |t| == |s|
    requires forall j :: 0 <= j < |t| ==>
               t[j] == if j in Matching(s, i, cmp, |s|) then s[j].(duplicateOf := Some(i)) else s[j]
    ensures t == MarkStep(s, i, cmp)
  {
    var r := MarkStep(s, i, cmp);
    forall j | 0 <= j < |t|
      ensures t[j] == r[j]
    {
    }
  }

  /** A tile with its duplicate link removed: everything the algorithm must leave alone. */
  function Unlinked(t: Tile): Tile {
    t.(duplicateOf := None)
  }

  /** Tile `j` after round `n`: pointed at tile `n - 1` if that round's filter picked it, else as before. */
  lemma {:induction false} RoundAt(s: seq<Tile>, n: nat, cmp: Comparator, j: nat)
    requires 0 < n <= |s| && j < |s|
    ensures var t := MarkedUpTo(s, n - 1, cmp);
            MarkedUpTo(s, n, cmp)[j]
              == if t[n - 1].duplicateOf.None? && Matches(t, n - 1, j, cmp) then t[j].(duplicateOf := Some(n - 1)) else t[j]
  {
  }

  /**
   * What any comparator's run does to tile `j` in the first `n` rounds:
   * only `duplicateOf` changes, an already marked tile is left exactly as
   * it was, and a newly marked tile points at a different tile among the
   * first `n`, one that was unmarked to begin with.
   */
  lemma {:induction false} ShapeAt(s: seq<Tile>, n: nat, cmp: Comparator, j: nat)
    requires n <= |s| && j < |s|
    ensures var t := MarkedUpTo(s, n, cmp);
            && Unlinked(t[j]) == Unlinked(s[j])
            && (s[j].duplicateOf.Some? ==> t[j] == s[j])
            && (s[j].duplicateOf.None? && t[j].duplicateOf.Some? ==>
                  var k := t[j].duplicateOf.value;
                  k < n && k != j && s[k].duplicateOf.None?)
  {
    if n > 0 {
      ShapeAt(s, n - 1, cmp, j);
      ShapeAt(s, n - 1, cmp, n - 1);
      RoundAt(s, n, cmp, j);
    }
  }

  /** `ShapeAt` for every tile of a whole run. */
  lemma {:induction false} MarkedShape(s: seq<Tile>, cmp: Comparator)
    ensures forall j :: 0 <= j < |s| ==> Unlinked(Marked(s, cmp)[j]) == Unlinked(s[j])
    ensures forall j :: 0 <= j < |s| && s[j].duplicateOf.Some? ==> Marked(s, cmp)[j] == s[j]
    ensures forall j :: 0 <= j < |s| && s[j].duplicateOf.None? && Marked(s, cmp)[j].duplicateOf.Some? ==>
              Marked(s, cmp)[j].duplicateOf.value != j
              && Marked(s, cmp)[j].duplicateOf.value < |s|
              && s[Marked(s, cmp)[j].duplicateOf.value].duplicateOf.None?
  {
    forall j | 0 <= j < |s|
      ensures Unlinked(Marked(s, cmp)[j]) == Unlinked(s[j])
      ensures s[j].duplicateOf.Some? ==> Marked(s, cmp)[j] == s[j]
      ensures s[j].duplicateOf.None? && Marked(s, cmp)[j].duplicateOf.Some? ==>
                Marked(s, cmp)[j].duplicateOf.value != j
                && Marked(s, cmp)[j].duplicateOf.value < |s|
                && s[Marked(s, cmp)[j].duplicateOf.value].duplicateOf.None?
    {
      ShapeAt(s, |s|, cmp, j);
    }
  }

  /** The comparator gives the same answer both ways round. */
  ghost predicate Symmetric(cmp: Comparator) {
    forall a, b :: cmp(a, b) == cmp(b, a)
  }

  /** The comparator does not look at `duplicateOf`. */
  ghost predicate LinkBlind(cmp: Comparator) {
    forall a, b, c, d :: Unlinked(a) == Unlinked(c) && Unlinked(b) == Unlinked(d) ==> cmp(a, b) == cmp(c, d)
  }

  /**
   * After `n` rounds with a symmetric, link-blind comparator: if tile `j`
   * has been newly pointed at `k`, then `k` comes earlier, is unmarked and
   * matches `j`; and if `k` is among the first `n` and both are unmarked,
   * they do not match.
   */
  lemma {:induction false} EquivalenceAt(s: seq<Tile>, n: nat, cmp: Comparator, j: nat, k: nat)
    requires n <= |s| && j < |s| && k < |s| && Symmetric(cmp) && LinkBlind(cmp)
    ensures var t := MarkedUpTo(s, n, cmp);
            s[j].duplicateOf.None? && t[j].duplicateOf == Some(k) ==>
              k < j && t[k].duplicateOf.None? && cmp(s[k], s[j])
    ensures var t := MarkedUpTo(s, n, cmp);
            k < n && j != k && t[k].duplicateOf.None? && t[j].duplicateOf.None? ==> !cmp(s[k], s[j])
  {
    if n > 0 {
      var i := n - 1;
      EquivalenceAt(s, i, cmp, j, k);
      EquivalenceAt(s, i, cmp, i, k);
      EquivalenceAt(s, i, cmp, i, j);
      ShapeAt(s, i, cmp, i);
      ShapeAt(s, i, cmp, j);
      ShapeAt(s, i, cmp, k);
      RoundAt(s, n, cmp, i);
      RoundAt(s, n, cmp, j);
      RoundAt(s, n, cmp, k);
    }
  }

  /**
   * With a symmetric, link-blind comparator (the payload equality the
   * pipeline uses is one), each tile the run marks points at an earlier
   * tile that is itself unmarked and matches it.
   */
  lemma {:induction false} MarkedTargets(s: seq<Tile>, cmp: Comparator, j: nat, k: nat)
    requires Symmetric(cmp) && LinkBlind(cmp) && j < |s| && k < |s|
    requires s[j].duplicateOf.None? && Marked(s, cmp)[j].duplicateOf == Some(k)
    ensures k < j
    ensures Marked(s, cmp)[k].duplicateOf.None?
    ensures cmp(s[k], s[j])
  {
    EquivalenceAt(s, |s|, cmp, j, k);
  }

  /** With a symmetric, link-blind comparator a second run changes nothing. */
  lemma {:induction false} MarkDupesIdempotent(s: seq<Tile>, cmp: Comparator)
    requires Symmetric(cmp) && LinkBlind(cmp)
    ensures Marked(Marked(s, cmp), cmp) == Marked(s, cmp)
  {
    var r := Marked(s, cmp);
    MarkedShape(s, cmp);
    forall k, j | 0 <= k < |s| && 0 <= j < |s| && j != k && r[k].duplicateOf.None? && r[j].duplicateOf.None?
      ensures !cmp(s[k], s[j])
    {
      EquivalenceAt(s, |s|, cmp, j, k);
    }
    SettledStays(s, r, cmp, |s|);
  }

  /** A run over tiles in which no unmarked tile matches another unmarked one is a no-op. */
  lemma {:induction false} SettledStays(s: seq<Tile>, r: seq<Tile>, cmp: Comparator, n: nat)
    requires |r| == |s| && n <= |r| && LinkBlind(cmp)
    requires forall j :: 0 <= j < |s| ==> Unlinked(r[j]) == Unlinked(s[j])
    requires forall k, j :: 0 <= k < |s| && 0 <= j < |s| && j != k && r[k].duplicateOf.None? && r[j].duplicateOf.None?
               ==> !cmp(s[k], s[j])
    ensures MarkedUpTo(r, n, cmp) == r
  {
    if n > 0 {
      SettledStays(s, r, cmp, n - 1);
      var i := n - 1;
      if r[i].duplicateOf.None? {
        forall j | 0 <= j < |r|
          ensures !Matches(r, i, j, cmp)
        {
          assert cmp(r[i], r[j]) == cmp(s[i], s[j]);
        }
        assert MarkStep(r, i, cmp) == r;
      }
    }
  }

  /** The comparator of the test: every pair matches. */
  function AlwaysTrue(): Comparator {
    (a: Tile, b: Tile) => true
  }

  /**
   * With a comparator that always matches, over unmarked tiles, the first
   * tile stays unmarked and every other tile points at it.
   */
  lemma {:induction false} MarkAllToFirst(s: seq<Tile>)
    requires |s| > 0 && forall j :: 0 <= j < |s| ==> s[j].duplicateOf.None?
    ensures Marked(s, AlwaysTrue())[0].duplicateOf.None?
    ensures forall j :: 0 < j < |s| ==> Marked(s, AlwaysTrue())[j].duplicateOf == Some(0)
  {
    FirstClaimsAll(s, |s|);
  }

  /** After the first round every other tile points at the first, and later rounds skip them. */
  lemma {:induction false} FirstClaimsAll(s: seq<Tile>, n: nat)
    requires 0 < n <= |s| && forall j :: 0 <= j < |s| ==> s[j].duplicateOf.None?
    ensures MarkedUpTo(s, n, AlwaysTrue()) == MarkedUpTo(s, 1, AlwaysTrue())
    ensures MarkedUpTo(s, 1, AlwaysTrue())[0] == s[0]
    ensures forall j :: 0 < j < |s| ==> MarkedUpTo(s, 1, AlwaysTrue())[j] == s[j].(duplicateOf := Some(0))
  {
    assert MarkedUpTo(s, 0, AlwaysTrue()) == s;
    if n > 1 {
      FirstClaimsAll(s, n - 1);
    }
  }

  /** `markCromDupes`'s comparator: equal sprite payloads. */
  function CromPayloadsEqual(): Comparator {
    (a: Tile, b: Tile) => a.cromBinaryData == b.cromBinaryData
  }

  /** `markSromDupes`'s comparator: equal fix-layer payloads. */
  function SromPayloadsEqual(): Comparator {
    (a: Tile, b: Tile) => a.sromBinaryData == b.sromBinaryData
  }

  /** Removing the link keeps both payloads. */
  lemma {:induction false} UnlinkedPayloads(a: Tile, c: Tile)
    requires Unlinked(a) == Unlinked(c)
    ensures a.cromBinaryData == c.cromBinaryData && a.sromBinaryData == c.sromBinaryData
  {
    assert Unlinked(a).cromBinaryData == a.cromBinaryData && Unlinked(c).cromBinaryData == c.cromBinaryData;
    assert Unlinked(a).sromBinaryData == a.sromBinaryData && Unlinked(c).sromBinaryData == c.sromBinaryData;
  }

  /** `markCromDupes`'s comparator meets the conditions of `MarkedTargets` and `MarkDupesIdempotent`. */
  lemma {:induction false} CromComparatorQualifies()
    ensures Symmetric(CromPayloadsEqual()) && LinkBlind(CromPayloadsEqual())
  {
    var cmp := CromPayloadsEqual();
    forall a, b
      ensures cmp(a, b) == cmp(b, a)
    {
    }
    forall a, b, c, d | Unlinked(a) == Unlinked(c) && Unlinked(b) == Unlinked(d)
      ensures cmp(a, b) == cmp(c, d)
    {
      UnlinkedPayloads(a, c);
      UnlinkedPayloads(b, d);
    }
  }

  /** `markSromDupes`'s comparator meets the conditions of `MarkedTargets` and `MarkDupesIdempotent`. */
  lemma {:induction false} SromComparatorQualifies()
    ensures Symmetric(SromPayloadsEqual()) && LinkBlind(SromPayloadsEqual())
  {
    var cmp := SromPayloadsEqual();
    forall a, b
      ensures cmp(a, b) == cmp(b, a)
    {
    }
    forall a, b, c, d | Unlinked(a) == Unlinked(c) && Unlinked(b) == Unlinked(d)
      ensures cmp(a, b) == cmp(c, d)
    {
      UnlinkedPayloads(a, c);
      UnlinkedPayloads(b, d);
    }
  }

  /**
   * Animation links are not consulted: an unmarked master and an unmarked
   * tile with the same sprite payload are linked whatever their `childOf`
   * and `childAnimationFrames`.
   */
  lemma {:induction false} AnimationTilesMarked(a: Tile, b: Tile)
    requires a.duplicateOf.None? && b.duplicateOf.None? && a.cromBinaryData == b.cromBinaryData
    ensures Marked([a, b], CromPayloadsEqual())[0] == a
    ensures Marked([a, b], CromPayloadsEqual())[1] == b.(duplicateOf := Some(0))
  {
    var cmp := CromPayloadsEqual();
    var s := [a, b];
    assert MarkedUpTo(s, 0, cmp) == s;
    RoundAt(s, 1, cmp, 0);
    RoundAt(s, 1, cmp, 1);
    RoundAt(s, 2, cmp, 0);
    RoundAt(s, 2, cmp, 1);
  }
}
