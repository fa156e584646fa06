/**
 * `positionSroms`: gives every fix-layer tile that has no slot and is not
 * a duplicate the first free slot from 33 on, skipping every slot a
 * generator has already claimed.
 *
 * The tiles are sorted by `sortBySromIndex` (placed tiles first, by slot,
 * unplaced ones last in their original order), the unplaced non-duplicates
 * are filtered out of that order and handed slots by `pop`, so the last of
 * them gets the lowest slot.
 */
module SromPositions {
  import opened Wrappers
  import opened Tiles
  import opened Seqs
  import opened Sorting

  /** The first slot handed out; slots below it are left to the eyecatcher. */
  const FIRST_ANYWHERE_INDEX := 33

  /** The key `sortBySromIndex` compares: the tile's slot, if any. */
  function SromKey(a: seq<Tile>): nat -> Option<int> {
    (i: nat) => if i < |a| then a[i].sromIndex else None
  }

  /** The `canGoAnywhere` filter. */
  predicate CanGoAnywhere(t: Tile) {
    t.sromIndex.None? && t.duplicateOf.None?
  }

  function Anywhere(a: seq<Tile>): nat -> bool {
    (i: nat) => i < |a| && CanGoAnywhere(a[i])
  }

  /** `allTiles.sort(sortBySromIndex)`: the array is sorted in place, so the later filters see this order. */
  function SortedTiles(a: seq<Tile>, all: seq<nat>): seq<nat> {
    SortByKey<nat>(all, SromKey(a))
  }

  /** `canGoAnywhere`, in sorted order. */
  function FreeTiles(a: seq<Tile>, all: seq<nat>): seq<nat> {
    Filter<nat>(SortedTiles(a, all), Anywhere(a))
  }

  /**
   * `alreadyUsedIndices`: the slots of the placed tiles. The source reads
   * them off the sorted array, which holds the same tiles.
   */
  function UsedIndices(a: seq<Tile>, all: seq<nat>): (r: set<int>)
    ensures forall i :: 0 <= i < |all| && all[i] < |a| && a[all[i]].sromIndex.Some? ==> a[all[i]].sromIndex.value in r
    ensures forall x :: x in r ==> exists i :: 0 <= i < |all| && all[i] < |a| && a[all[i]].sromIndex == Some(x)
  {
    set i | 0 <= i < |all| && all[i] < |a| && a[all[i]].sromIndex.Some? :: a[all[i]].sromIndex.value
  }

  /** The slots of `used` from `c` on. */
  function UsedFrom(used: set<int>, c: int): set<int> {
    set x | x in used && x >= c
  }

  /** The inner `while (alreadyUsedIndices.has(...))`: the first slot from `c` on that is not used. */
  function NextFree(used: set<int>, c: int): (r: int)
    ensures c <= r && r !in used
    ensures forall x :: c <= x < r ==> x in used
    decreases |UsedFrom(used, c)|
  {
    if c in used then
      assert UsedFrom(used, c) == UsedFrom(used, c + 1) + {c};
      NextFree(used, c + 1)
    else c
  }

  /** The slots `n` successive passes of the outer loop hand out, from cursor `c`. */
  function Slots(used: set<int>, c: int, n: nat): (r: seq<int>)
    ensures |r| == n
    ensures forall k :: 0 <= k < n ==> c <= r[k] && r[k] !in used
    ensures forall i, j :: 0 <= i < j < n ==> r[i] < r[j]
    decreases n
  {
    if n == 0 then []
    else
      var s := NextFree(used, c);
      var rest := Slots(used, s + 1, n - 1);
      assert forall k :: 1 <= k < n ==> ([s] + rest)[k] == rest[k - 1];
      [s] + rest
  }

  /** First fit: every unused slot from `c` up to the last one handed out is handed out. */
  lemma {:induction false} SlotsNoGaps(used: set<int>, c: int, n: nat, x: int)
    requires n > 0 && c <= x <= Slots(used, c, n)[n - 1] && x !in used
    ensures x in Slots(used, c, n)
    decreases n
  {
    var s := NextFree(used, c);
    var rest := Slots(used, s + 1, n - 1);
    assert Slots(used, c, n) == [s] + rest;
    if x > s {
      assert rest[n - 2] == Slots(used, c, n)[n - 1];
      SlotsNoGaps(used, s + 1, n - 1, x);
    }
  }

  /**
   * The outer loop: pops the last of `rest`, gives it the next free slot
   * from `c`, and goes on with the cursor past that slot.
   */
  function Pops(b: seq<Tile>, rest: seq<nat>, used: set<int>, c: int): (r: seq<Tile>)
    ensures |r| == |b|
    decreases |rest|
  {
    if rest == [] then b
    else
      var t := rest[|rest| - 1];
      var s := NextFree(used, c);
      var b' := if t < |b| then b[t := b[t].(sromIndex := Some(s))] else b;
      Pops(b', rest[..|rest| - 1], used, s + 1)
  }

  /** The arena after `positionSroms`. */
  function Positioned(a: seq<Tile>, all: seq<nat>): (r: seq<Tile>)
    ensures |r| == |a|
  {
    Pops(a, FreeTiles(a, all), UsedIndices(a, all), FIRST_ANYWHERE_INDEX)
  }

  /**
   * `positionSroms`, once the generators have set their own slots:
   * `images` holds every generator's tile matrices, in order; the source
   * reads every flattened cell, so none may be empty.
   */
  method PositionSroms(images: seq<Matrix>, tiles: array<Tile>)
    requires CellsIn(images, tiles.Length) && NoEmptyCells(images)
    modifies tiles
    ensures tiles[..] == Positioned(old(tiles[..]), Visits(images))
  {
    ghost var a := tiles[..];
    var all := Visits(images);
    VisitsIn(images, tiles.Length);
    var sorted := SortByKey<nat>(all, SromKey(tiles[..]));
    var canGoAnywhere: seq<nat> := Filter<nat>(sorted, Anywhere(tiles[..]));
    var used := UsedIndices(tiles[..], all);
    FreeTilesIn(a, all);
    assert canGoAnywhere == FreeTiles(a, all) && used == UsedIndices(a, all);
    PopLoop(tiles, canGoAnywhere, used);
  }

  /** The outer loop: pops the free tiles, last first, into the free slots from 33 on. */
  method PopLoop(tiles: array<Tile>, free: seq<nat>, used: set<int>)
    requires forall k :: 0 <= k < |free| ==> free[k] < tiles.Length
    modifies tiles
    ensures tiles[..] == Pops(old(tiles[..]), free, used, FIRST_ANYWHERE_INDEX)
  {
    var canGoAnywhere: seq<nat> := free;
    var cur := FIRST_ANYWHERE_INDEX;
    while |canGoAnywhere| > 0
      invariant forall k :: 0 <= k < |canGoAnywhere| ==> canGoAnywhere[k] < tiles.Length
      invariant Pops(tiles[..], canGoAnywhere, used, cur) == Pops(old(tiles[..]), free, used, FIRST_ANYWHERE_INDEX)
    {
      cur := SkipUsed(used, cur);
      var tile := canGoAnywhere[|canGoAnywhere| - 1];
      ghost var b := tiles[..];
      canGoAnywhere := canGoAnywhere[..|canGoAnywhere| - 1];
      tiles[tile] := tiles[tile].(sromIndex := Some(cur));
      assert tiles[..] == b[tile := b[tile].(sromIndex := Some(cur))];
      cur := cur + 1;
    }
  }

  /** The inner loop: steps the cursor past the used slots. */
  method SkipUsed(used: set<int>, c: int) returns (cur: int)
    ensures cur == NextFree(used, c)
  {
    cur := c;
    ghost var target := NextFree(used, c);
    while cur in used
      invariant c <= cur <= target && NextFree(used, cur) == target
      decreases target - cur
    {
      cur := cur + 1;
    }
  }

  /** The listed tiles are arena tiles. */
  lemma {:induction false} FreeTilesIn(a: seq<Tile>, all: seq<nat>)
    requires forall k :: 0 <= k < |all| ==> all[k] < |a|
    ensures forall k :: 0 <= k < |FreeTiles(a, all)| ==> FreeTiles(a, all)[k] < |a|
  {
    var sorted := SortedTiles(a, all);
    FilterSubMultiset(sorted, Anywhere(a));
    forall k | 0 <= k < |FreeTiles(a, all)| ensures FreeTiles(a, all)[k] < |a| {
      var x := FreeTiles(a, all)[k];
      assert x in multiset(FreeTiles(a, all));
      assert x in multiset(sorted);
      assert x in multiset(all);
    }
  }

  // ---------------------------------------------------------------------
  // What a run does to the arena

  /**
   * The passes touch nothing but `sromIndex`; a tile they do not pop is
   * unchanged; a popped tile, and a tile that had a slot, ends with one.
   */
  lemma {:induction false} PopsAt(b: seq<Tile>, rest: seq<nat>, used: set<int>, c: int, j: nat)
    requires j < |b|
    ensures Pops(b, rest, used, c)[j] == b[j].(sromIndex := Pops(b, rest, used, c)[j].sromIndex)
    ensures j !in rest ==> Pops(b, rest, used, c)[j] == b[j]
    ensures j in rest || b[j].sromIndex.Some? ==> Pops(b, rest, used, c)[j].sromIndex.Some?
    decreases |rest|
  {
    if rest != [] {
      var t := rest[|rest| - 1];
      var s := NextFree(used, c);
      var b' := if t < |b| then b[t := b[t].(sromIndex := Some(s))] else b;
      var init := rest[..|rest| - 1];
      PopsAt(b', init, used, s + 1, j);
      assert rest == init + [t];
      assert j !in rest ==> j !in init && j != t;
    }
  }

  /**
   * With no tile listed twice, the `k`-th pop, counted from the back of
   * the list, gets the `k`-th slot handed out.
   */
  lemma {:induction false} PopsSlot(b: seq<Tile>, rest: seq<nat>, used: set<int>, c: int, k: nat)
    requires Distinct(rest) && forall i :: 0 <= i < |rest| ==> rest[i] < |b|
    requires k < |rest|
    ensures Pops(b, rest, used, c)[rest[|rest| - 1 - k]].sromIndex == Some(Slots(used, c, |rest|)[k])
    decreases |rest|
  {
    var t := rest[|rest| - 1];
    var s := NextFree(used, c);
    var b' := b[t := b[t].(sromIndex := Some(s))];
    var init := rest[..|rest| - 1];
    assert Distinct(init);
    if k == 0 {
      assert t !in init;
      PopsAt(b', init, used, s + 1, t);
    } else {
      PopsSlot(b', init, used, s + 1, k - 1);
      assert init[|init| - 1 - (k - 1)] == rest[|rest| - 1 - k];
    }
  }

  // ---------------------------------------------------------------------
  // What `positionSroms` promises

  /** Stability: the free tiles come out of the sort in their input order. */
  lemma {:induction false} FreeInInputOrder(a: seq<Tile>, all: seq<nat>)
    ensures FreeTiles(a, all) == Filter<nat>(all, Anywhere(a))
  {
    SortKeepsUnkeyedOrder<nat>(all, SromKey(a), Anywhere(a));
  }

  /**
   * Only `sromIndex` changes; a tile that already had a slot, or is a
   * duplicate, is left as it was.
   */
  lemma {:induction false} PositionedKeeps(a: seq<Tile>, all: seq<nat>, j: nat)
    requires j < |a|
    ensures Positioned(a, all)[j] == a[j].(sromIndex := Positioned(a, all)[j].sromIndex)
    ensures !CanGoAnywhere(a[j]) ==> Positioned(a, all)[j] == a[j]
  {
    PopsAt(a, FreeTiles(a, all), UsedIndices(a, all), FIRST_ANYWHERE_INDEX, j);
    if j in FreeTiles(a, all) {
      FilterFrom(SortedTiles(a, all), Anywhere(a), j);
      var k :| 0 <= k < |FreeTiles(a, all)| && FreeTiles(a, all)[k] == j;
      assert Anywhere(a)(FreeTiles(a, all)[k]);
    }
  }

  /** Afterwards every tile that is not a duplicate has a slot. */
  lemma {:induction false} EveryNonDuplicatePlaced(a: seq<Tile>, all: seq<nat>, i: nat)
    requires forall k :: 0 <= k < |all| ==> all[k] < |a|
    requires i < |all| && a[all[i]].duplicateOf.None?
    ensures Positioned(a, all)[all[i]].sromIndex.Some?
  {
    var j := all[i];
    if a[j].sromIndex.None? {
      FreeInInputOrder(a, all);
      FilterKeeps<nat>(all, Anywhere(a), j);
    }
    PopsAt(a, FreeTiles(a, all), UsedIndices(a, all), FIRST_ANYWHERE_INDEX, j);
  }

  /** Pops later in the run get higher slots; every slot is from `c` on and unused. */
  lemma {:induction false} PopsOrder(b: seq<Tile>, rest: seq<nat>, used: set<int>, c: int, p: nat, q: nat)
    requires Distinct(rest) && forall i :: 0 <= i < |rest| ==> rest[i] < |b|
    requires p < q < |rest|
    ensures var r := Pops(b, rest, used, c);
            r[rest[p]].sromIndex.Some? && r[rest[q]].sromIndex.Some?
            && r[rest[p]].sromIndex.value > r[rest[q]].sromIndex.value
            && c <= r[rest[q]].sromIndex.value
            && r[rest[p]].sromIndex.value !in used && r[rest[q]].sromIndex.value !in used
  {
    var n := |rest|;
    var slots := Slots(used, c, n);
    PopsSlot(b, rest, used, c, n - 1 - p);
    PopsSlot(b, rest, used, c, n - 1 - q);
    assert rest[n - 1 - (n - 1 - p)] == rest[p] && rest[n - 1 - (n - 1 - q)] == rest[q];
    assert slots[n - 1 - q] < slots[n - 1 - p];
  }

  /** Every unused slot from `c` up to the first tile's slot goes to some tile of the list. */
  lemma {:induction false} PopsNoGaps(b: seq<Tile>, rest: seq<nat>, used: set<int>, c: int, x: int, top: int)
    requires Distinct(rest) && forall i :: 0 <= i < |rest| ==> rest[i] < |b|
    requires rest != [] && Pops(b, rest, used, c)[rest[0]].sromIndex == Some(top)
    requires c <= x <= top && x !in used
    ensures exists k :: 0 <= k < |rest| && Pops(b, rest, used, c)[rest[k]].sromIndex == Some(x)
  {
    var n := |rest|;
    var slots := Slots(used, c, n);
    PopsSlot(b, rest, used, c, n - 1);
    assert rest[n - 1 - (n - 1)] == rest[0];
    SlotsNoGaps(used, c, n, x);
    var k :| 0 <= k < n && slots[k] == x;
    PopsSlot(b, rest, used, c, k);
    assert 0 <= n - 1 - k < n;
  }

  /**
   * When each tile appears once in the matrices, the free tiles get the
   * slots handed out, the last one first: an earlier free tile gets a
   * higher slot than a later one. Every new slot is at least 33 and is no
   * tile's preset slot.
   */
  lemma {:induction false} NewSlots(a: seq<Tile>, all: seq<nat>, p: nat, q: nat)
    requires forall k :: 0 <= k < |all| ==> all[k] < |a|
    requires Distinct(all)
    requires p < q < |FreeTiles(a, all)|
    ensures var free, r := FreeTiles(a, all), Positioned(a, all);
            r[free[p]].sromIndex.Some? && r[free[q]].sromIndex.Some?
            && r[free[p]].sromIndex.value > r[free[q]].sromIndex.value
            && FIRST_ANYWHERE_INDEX <= r[free[q]].sromIndex.value
            && (forall i :: 0 <= i < |all| && a[all[i]].sromIndex.Some? ==>
                  a[all[i]].sromIndex.value != r[free[p]].sromIndex.value
                  && a[all[i]].sromIndex.value != r[free[q]].sromIndex.value)
  {
    var free := FreeTiles(a, all);
    var used := UsedIndices(a, all);
    FreeReady(a, all);
    PopsOrder(a, free, used, FIRST_ANYWHERE_INDEX, p, q);
  }

  /** The last free tile gets the first free slot from 33 on. */
  lemma {:induction false} LastGetsLowest(a: seq<Tile>, all: seq<nat>)
    requires forall k :: 0 <= k < |all| ==> all[k] < |a|
    requires Distinct(all) && FreeTiles(a, all) != []
    ensures var free := FreeTiles(a, all);
            Positioned(a, all)[free[|free| - 1]].sromIndex == Some(NextFree(UsedIndices(a, all), FIRST_ANYWHERE_INDEX))
  {
    var free := FreeTiles(a, all);
    FreeReady(a, all);
    PopsFirst(a, free, UsedIndices(a, all), FIRST_ANYWHERE_INDEX);
  }

  lemma {:induction false} PopsFirst(b: seq<Tile>, rest: seq<nat>, used: set<int>, c: int)
    requires Distinct(rest) && forall i :: 0 <= i < |rest| ==> rest[i] < |b|
    requires rest != []
    ensures Pops(b, rest, used, c)[rest[|rest| - 1]].sromIndex == Some(NextFree(used, c))
  {
    PopsSlot(b, rest, used, c, 0);
  }

  /**
   * First fit: every slot from 33 up to the highest one handed out (the
   * first free tile's) that no tile had claimed goes to one of the free
   * tiles.
   */
  lemma {:induction false} NoGaps(a: seq<Tile>, all: seq<nat>, x: int, top: int)
    requires forall k :: 0 <= k < |all| ==> all[k] < |a|
    requires Distinct(all) && FreeTiles(a, all) != []
    requires Positioned(a, all)[FreeTiles(a, all)[0]].sromIndex == Some(top)
    requires FIRST_ANYWHERE_INDEX <= x <= top
    requires forall i :: 0 <= i < |all| ==> a[all[i]].sromIndex != Some(x)
    ensures exists k :: 0 <= k < |FreeTiles(a, all)| && Positioned(a, all)[FreeTiles(a, all)[k]].sromIndex == Some(x)
  {
    FreeReady(a, all);
    PopsNoGaps(a, FreeTiles(a, all), UsedIndices(a, all), FIRST_ANYWHERE_INDEX, x, top);
  }

  /** The free tiles are arena tiles, none listed twice when none is in the matrices twice. */
  lemma {:induction false} FreeReady(a: seq<Tile>, all: seq<nat>)
    requires forall k :: 0 <= k < |all| ==> all[k] < |a|
    requires Distinct(all)
    ensures Distinct(FreeTiles(a, all))
    ensures forall k :: 0 <= k < |FreeTiles(a, all)| ==> FreeTiles(a, all)[k] < |a|
  {
    FreeInInputOrder(a, all);
    FilterDistinct<nat>(all, Anywhere(a));
    FreeTilesIn(a, all);
  }
}
