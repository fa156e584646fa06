/**
 * The newer `emitSromBinary`: builds the fix-layer ROM image. Every tile
 * that has a slot and is not a duplicate is a candidate; when several
 * tiles claim one slot, only those with the highest priority are kept.
 * The kept tiles, sorted by slot, are spliced into a zero-filled 128 KiB
 * image, 32 bytes per slot, so a later tile overwrites an earlier one in
 * the same slot.
 */
module SromEmit {
  import opened Wrappers
  import opened Seqs
  import opened Sorting
  import opened Tiles
  import opened SromTile

  const FULL_SROM_SIZE_BYTES := 128 * 1024

  /** The number of slots the image holds. */
  const SROM_SLOTS := FULL_SROM_SIZE_BYTES / SROM_TILE_SIZE_BYTES

  /** `t.priority ?? 0`. */
  function PriorityOf(t: Tile): int {
    if t.priority.Some? then t.priority.value else 0
  }

  /** `a.filter((t2) => t2.sromIndex === t.sromIndex)`: duplicates included. */
  function SameIndex(s: seq<Tile>, t: Tile): seq<Tile> {
    Filter(s, (t2: Tile) => t2.sromIndex == t.sromIndex)
  }

  function Priorities(s: seq<Tile>): (r: seq<int>)
    ensures |r| == |s| && forall i :: 0 <= i < |s| ==> r[i] == PriorityOf(s[i])
  {
    seq(|s|, i requires 0 <= i < |s| => PriorityOf(s[i]))
  }

  /** The predicate of the `tilesToEmit` filter, for tile `t` of `s`. */
  predicate Emits(s: seq<Tile>, t: Tile) {
    t.duplicateOf.None? && t.sromIndex.Some?
    && var same := SameIndex(s, t);
       |same| == 1 || (same != [] && PriorityOf(t) == Max(Priorities(same)))
  }

  /** `tilesToEmit`, before its sort. */
  function ToEmit(s: seq<Tile>): seq<Tile> {
    Filter(s, (t: Tile) => Emits(s, t))
  }

  /** The key `sortBySromIndex` compares. */
  function SlotKey(t: Tile): Option<int> {
    t.sromIndex
  }

  /** `tilesToEmit` after `sort(sortBySromIndex)`. */
  function SortedToEmit(s: seq<Tile>): seq<Tile> {
    SortByKey(ToEmit(s), SlotKey)
  }

  /**
   * The image after the `forEach` over `ts` from `d`: each tile's payload
   * replaces the 32 bytes of its slot; a tile without a payload throws.
   */
  function Splices(d: seq<int>, ts: seq<Tile>): Result<seq<int>> {
    if ts == [] then Ok(d)
    else
      var t := ts[|ts| - 1];
      match Splices(d, ts[..|ts| - 1])
      case Err(e) => Err(e)
      case Ok(d') =>
        if t.sromBinaryData.None? then Err(MissingBinaryData)
        else Ok(JsSplice(d', SpliceStart(t), SROM_TILE_SIZE_BYTES, t.sromBinaryData.value))
  }

  /**
   * `tile.sromIndex! * SROM_TILE_SIZE_BYTES`. Every tile to emit has a slot
   * (`SortedKeyed`); without one the product would be `NaN`, which
   * `splice` reads as 0.
   */
  function SpliceStart(t: Tile): int {
    if t.sromIndex.Some? then t.sromIndex.value * SROM_TILE_SIZE_BYTES else 0
  }

  /** The result of `emitSromBinary(s)`. */
  function EmitSrom(s: seq<Tile>): Result<seq<int>> {
    Splices(Zeros(FULL_SROM_SIZE_BYTES), SortedToEmit(s))
  }

  /** `emitSromBinary`. */
  method EmitSromBinary(sourceTiles: seq<Tile>) returns (r: Result<seq<int>>)
    ensures r == EmitSrom(sourceTiles)
  {
    var tilesToEmit := Filter(sourceTiles, (t: Tile) => Emits(sourceTiles, t));
    tilesToEmit := SortByKey(tilesToEmit, SlotKey);
    var sData := Zeros(FULL_SROM_SIZE_BYTES);
    r := SpliceAll(sData, tilesToEmit);
  }

  /** The `forEach` over the sorted tiles. */
  method SpliceAll(d: seq<int>, ts: seq<Tile>) returns (r: Result<seq<int>>)
    ensures r == Splices(d, ts)
  {
    var sData := d;
    for i := 0 to |ts|
      invariant Splices(d, ts[..i]) == Ok(sData)
    {
      var tile := ts[i];
      assert ts[..i + 1][..i] == ts[..i];
      if tile.sromBinaryData.None? {
        SplicesErr(d, ts[..i + 1], ts[i + 1..]);
        assert ts[..i + 1] + ts[i + 1..] == ts;
        return Err(MissingBinaryData);
      }
      sData := JsSplice(sData, SpliceStart(tile), SROM_TILE_SIZE_BYTES, tile.sromBinaryData.value);
    }
    assert ts[..|ts|] == ts;
    return Ok(sData);
  }

  /** Every tile to emit has a slot. */
  lemma {:induction false} SortedKeyed(s: seq<Tile>, i: int)
    requires 0 <= i < |SortedToEmit(s)|
    ensures SortedToEmit(s)[i].sromIndex.Some?
  {
    var t := SortedToEmit(s)[i];
    assert t in multiset(SortedToEmit(s));
    assert t in multiset(ToEmit(s));
    var k :| 0 <= k < |ToEmit(s)| && ToEmit(s)[k] == t;
  }

  /** Once a splice has thrown, later tiles change nothing. */
  lemma {:induction false} SplicesErr(d: seq<int>, x: seq<Tile>, y: seq<Tile>)
    requires Splices(d, x).Err?
    ensures Splices(d, x + y) == Splices(d, x)
    decreases |y|
  {
    if y == [] {
      assert x + y == x;
    } else {
      SplicesErr(d, x, y[..|y| - 1]);
      assert (x + y)[..|x + y| - 1] == x + y[..|y| - 1];
    }
  }

  // ---------------------------------------------------------------------
  // The priority rule

  /**
   * A tile is emitted exactly when it is not a duplicate, has a slot, and
   * no tile of the input (duplicates included) claims that slot with a
   * higher priority.
   */
  lemma {:induction false} EmitsIff(s: seq<Tile>, t: Tile)
    requires t in s
    ensures t in ToEmit(s) <==>
              t.duplicateOf.None? && t.sromIndex.Some?
              && forall j :: 0 <= j < |s| && s[j].sromIndex == t.sromIndex ==> PriorityOf(s[j]) <= PriorityOf(t)
  {
    var same := SameIndex(s, t);
    var p := (t2: Tile) => t2.sromIndex == t.sromIndex;
    FilterKeeps(s, p, t);
    var k :| 0 <= k < |same| && same[k] == t;
    var ps := Priorities(same);
    forall j | 0 <= j < |s| && s[j].sromIndex == t.sromIndex
      ensures s[j] in same
    {
      FilterKeeps(s, p, s[j]);
    }
    if t in ToEmit(s) {
      FilterPicked(s, (t': Tile) => Emits(s, t'), t);
      forall j | 0 <= j < |s| && s[j].sromIndex == t.sromIndex
        ensures PriorityOf(s[j]) <= PriorityOf(t)
      {
        var m :| 0 <= m < |same| && same[m] == s[j];
        if |same| == 1 {
          assert m == k;
        } else {
          assert ps[m] <= Max(ps);
        }
      }
    } else if t.duplicateOf.None? && t.sromIndex.Some?
              && forall j :: 0 <= j < |s| && s[j].sromIndex == t.sromIndex ==> PriorityOf(s[j]) <= PriorityOf(t) {
      forall m | 0 <= m < |same| ensures ps[m] <= PriorityOf(t) {
        FilterPicked(s, p, same[m]);
        FilterFrom(s, p, same[m]);
        var j :| 0 <= j < |s| && s[j] == same[m];
      }
      assert ps[k] == PriorityOf(t);
      assert Max(ps) == PriorityOf(t);
      FilterKeeps(s, (t': Tile) => Emits(s, t'), t);
    }
  }

  // ---------------------------------------------------------------------
  // The image

  /** Tile `t` claims slot `i`. */
  function AtSlot(i: int): Tile -> bool {
    (t: Tile) => t.sromIndex == Some(i)
  }

  /** The last tile of `ts` that claims slot `i`, if any: the one whose splice stays. */
  function Winner(ts: seq<Tile>, i: int): Option<Tile> {
    var f := Filter(ts, AtSlot(i));
    if f == [] then None else Some(f[|f| - 1])
  }

  /** Byte `k` of slot `i` after the splices of `ts` over an image whose byte there is `before`. */
  function SlotByte(ts: seq<Tile>, i: int, k: int, before: int): int {
    match Winner(ts, i)
    case None => before
    case Some(w) => if w.sromBinaryData.Some? && 0 <= k < |w.sromBinaryData.value| then w.sromBinaryData.value[k] else 0
  }

  /** Every tile has a 32-byte payload and a slot inside the image. */
  predicate Fits(ts: seq<Tile>) {
    forall j :: 0 <= j < |ts| ==>
      ts[j].sromBinaryData.Some? && |ts[j].sromBinaryData.value| == SROM_TILE_SIZE_BYTES
      && ts[j].sromIndex.Some? && 0 <= ts[j].sromIndex.value < SROM_SLOTS
  }

  /** Byte `k` of slot `i` after the splices of `ts`: the winner's byte, else what `d` held. */
  lemma {:induction false} SplicesAt(d: seq<int>, ts: seq<Tile>, i: int, k: int)
    requires |d| == FULL_SROM_SIZE_BYTES && Fits(ts)
    requires 0 <= i < SROM_SLOTS && 0 <= k < SROM_TILE_SIZE_BYTES
    ensures Splices(d, ts).Ok? && |Splices(d, ts).value| == FULL_SROM_SIZE_BYTES
    ensures Splices(d, ts).value[i * SROM_TILE_SIZE_BYTES + k] == SlotByte(ts, i, k, d[i * SROM_TILE_SIZE_BYTES + k])
    decreases |ts|
  {
    if ts != [] {
      var init, t := ts[..|ts| - 1], ts[|ts| - 1];
      FitsSnoc(ts);
      SplicesAt(d, init, i, k);
      SpliceOne(Splices(d, init).value, t, i, k);
      WinnerSnoc(ts, i);
    }
  }

  lemma {:induction false} FitsSnoc(ts: seq<Tile>)
    requires ts != [] && Fits(ts)
    ensures Fits(ts[..|ts| - 1])
    ensures var t := ts[|ts| - 1];
            t.sromBinaryData.Some? && |t.sromBinaryData.value| == SROM_TILE_SIZE_BYTES
            && t.sromIndex.Some? && 0 <= t.sromIndex.value < SROM_SLOTS
  {
    assert forall j | 0 <= j < |ts| - 1 :: ts[..|ts| - 1][j] == ts[j];
  }

  /** The last tile claiming a slot, after one more tile. */
  lemma {:induction false} WinnerSnoc(ts: seq<Tile>, i: int)
    requires ts != []
    ensures Winner(ts, i) == if ts[|ts| - 1].sromIndex == Some(i) then Some(ts[|ts| - 1]) else Winner(ts[..|ts| - 1], i)
  {
  }

  /** One splice of a 32-byte payload into the image, seen at byte `k` of slot `i`. */
  lemma {:induction false} SpliceOne(prev: seq<int>, t: Tile, i: int, k: int)
    requires |prev| == FULL_SROM_SIZE_BYTES
    requires t.sromBinaryData.Some? && |t.sromBinaryData.value| == SROM_TILE_SIZE_BYTES
    requires t.sromIndex.Some? && 0 <= t.sromIndex.value < SROM_SLOTS
    requires 0 <= i < SROM_SLOTS && 0 <= k < SROM_TILE_SIZE_BYTES
    ensures var r := JsSplice(prev, SpliceStart(t), SROM_TILE_SIZE_BYTES, t.sromBinaryData.value);
            var pos := i * SROM_TILE_SIZE_BYTES + k;
            |r| == FULL_SROM_SIZE_BYTES
            && r[pos] == if t.sromIndex.value == i then t.sromBinaryData.value[k] else prev[pos]
  {
    var start := SpliceStart(t);
    var r := JsSplice(prev, start, SROM_TILE_SIZE_BYTES, t.sromBinaryData.value);
    var pos := i * SROM_TILE_SIZE_BYTES + k;
    if t.sromIndex.value == i {
      assert r[start..start + SROM_TILE_SIZE_BYTES][k] == r[pos];
    } else {
      SlotApart(i, t.sromIndex.value, k);
      if pos < start {
        assert r[..start][pos] == prev[..start][pos];
      } else {
        assert r[start + SROM_TILE_SIZE_BYTES..][pos - start - SROM_TILE_SIZE_BYTES]
            == prev[start + SROM_TILE_SIZE_BYTES..][pos - start - SROM_TILE_SIZE_BYTES];
      }
    }
  }

  /** Byte `k` of slot `i` lies outside the 32 bytes of any other slot. */
  lemma {:induction false} SlotApart(i: int, j: int, k: int)
    requires i != j && 0 <= k < SROM_TILE_SIZE_BYTES
    ensures i * SROM_TILE_SIZE_BYTES + k < j * SROM_TILE_SIZE_BYTES
         || i * SROM_TILE_SIZE_BYTES + k >= j * SROM_TILE_SIZE_BYTES + SROM_TILE_SIZE_BYTES
  {
    if i < j {
      assert i * SROM_TILE_SIZE_BYTES + SROM_TILE_SIZE_BYTES <= j * SROM_TILE_SIZE_BYTES;
    } else {
      assert j * SROM_TILE_SIZE_BYTES + SROM_TILE_SIZE_BYTES <= i * SROM_TILE_SIZE_BYTES;
    }
  }

  /**
   * When every tile to emit has a 32-byte payload and a slot below 4096,
   * the image is exactly 128 KiB, and slot `i` holds the payload of the
   * last tile to emit that claims it, in input order, or zeros when none
   * does.
   */
  lemma {:induction false} SlotContents(s: seq<Tile>, i: int, k: int)
    requires Fits(ToEmit(s))
    requires 0 <= i < SROM_SLOTS && 0 <= k < SROM_TILE_SIZE_BYTES
    ensures EmitSrom(s).Ok? && |EmitSrom(s).value| == FULL_SROM_SIZE_BYTES
    ensures EmitSrom(s).value[i * SROM_TILE_SIZE_BYTES + k] == SlotByte(ToEmit(s), i, k, 0)
  {
    var sorted := SortedToEmit(s);
    FitsPerm(ToEmit(s), sorted);
    var z := Zeros(FULL_SROM_SIZE_BYTES);
    SplicesAt(z, sorted, i, k);
    SortedWinner(ToEmit(s), i);
  }

  /** The sort does not change which tile claiming a slot comes last. */
  lemma {:induction false} SortedWinner(ts: seq<Tile>, i: int)
    ensures Winner(SortByKey(ts, SlotKey), i) == Winner(ts, i)
  {
    SortKeepsKeyOrder(ts, SlotKey, AtSlot(i));
  }

  /** `Fits` holds of every reordering. */
  lemma {:induction false} FitsPerm(x: seq<Tile>, y: seq<Tile>)
    requires Fits(x) && multiset(x) == multiset(y)
    ensures Fits(y)
  {
    forall j | 0 <= j < |y| ensures y[j] in x {
      assert y[j] in multiset(y);
    }
  }

  /** A tile to emit without a payload makes the call throw. */
  lemma {:induction false} MissingPayloadThrows(s: seq<Tile>)
    requires exists t :: t in ToEmit(s) && t.sromBinaryData.None?
    ensures EmitSrom(s) == Err(MissingBinaryData)
  {
    var t :| t in ToEmit(s) && t.sromBinaryData.None?;
    var sorted := SortedToEmit(s);
    assert t in multiset(ToEmit(s));
    var k :| 0 <= k < |sorted| && sorted[k] == t;
    SplicesThrow(Zeros(FULL_SROM_SIZE_BYTES), sorted, k);
  }

  lemma {:induction false} SplicesThrow(d: seq<int>, ts: seq<Tile>, k: int)
    requires 0 <= k < |ts| && ts[k].sromBinaryData.None?
    ensures Splices(d, ts) == Err(MissingBinaryData)
    decreases |ts|
  {
    var init := ts[..|ts| - 1];
    if k < |ts| - 1 {
      assert init[k] == ts[k];
      SplicesThrow(d, init, k);
    } else if Splices(d, init).Err? {
      SplicesThrown(d, init);
    }
  }

  /** The only error a splice run raises. */
  lemma {:induction false} SplicesThrown(d: seq<int>, ts: seq<Tile>)
    ensures Splices(d, ts).Err? ==> Splices(d, ts).error == MissingBinaryData
    decreases |ts|
  {
    if ts != [] {
      SplicesThrown(d, ts[..|ts| - 1]);
    }
  }
}
