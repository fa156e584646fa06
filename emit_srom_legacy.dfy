/**
 * The older `emitSromBinary`: walks the tiles in slot order, appends 32
 * zero bytes for every slot it skips and then the tile's payload, and
 * pads the result with zeros to 128 KiB. There is no priority rule: two
 * tiles that claim one slot are both appended, one after the other.
 */
module SromEmitLegacy {
  import opened Wrappers
  import opened Seqs
  import opened Sorting
  import opened Tiles
  import opened SromTile
  import opened Padding
  import opened SromEmit

  /** The bytes written so far and the slot the next byte belongs to. */
  datatype Stream = Stream(data: seq<int>, cur: int)

  /** The tiles the loop `continue`s past. */
  predicate Skipped(t: Tile) {
    t.duplicateOf.Some? || t.sromIndex.None?
  }

  /** The passes of the gap-filling `while` before a tile in slot `slot`. */
  function Gap(cur: int, slot: int): nat {
    if cur < slot then slot - cur else 0
  }

  /** One pass of the `for` loop. Spreading a missing payload throws. */
  function Step(e: Stream, t: Tile): Result<Stream> {
    if Skipped(t) then Ok(e)
    else if t.sromBinaryData.None? then Err(MissingBinaryData)
    else
      var gap := Gap(e.cur, t.sromIndex.value);
      Ok(Stream(e.data + Zeros(SROM_TILE_SIZE_BYTES * gap) + t.sromBinaryData.value, e.cur + gap + 1))
  }

  /** The `for` loop over `ts`, from an empty stream at slot 0. */
  function Walk(ts: seq<Tile>): Result<Stream> {
    if ts == [] then Ok(Stream([], 0))
    else
      match Walk(ts[..|ts| - 1])
      case Err(e) => Err(e)
      case Ok(e) => Step(e, ts[|ts| - 1])
  }

  /** The result of the older `emitSromBinary(s)`. */
  function LegacyEmitSrom(s: seq<Tile>): (r: Result<seq<int>>)
    ensures r.Ok? ==> |r.value| == FULL_SROM_SIZE_BYTES
    ensures r.Err? ==> r.error == MissingBinaryData || r.error == PaddingTooSmall
  {
    var w := Walk(SortByKey(s, SlotKey));
    WalkThrown(SortByKey(s, SlotKey));
    if w.Err? then Err(w.error) else PadTo(w.value.data, FULL_SROM_SIZE_BYTES)
  }

  /** The older `emitSromBinary`. */
  method LegacyEmitSromBinary(sourceTiles: seq<Tile>) returns (r: Result<seq<int>>)
    ensures r == LegacyEmitSrom(sourceTiles)
  {
    var allTiles := SortByKey(sourceTiles, SlotKey);
    var w := WalkAll(allTiles);
    WalkThrown(allTiles);
    if w.Err? {
      return Err(w.error);
    }
    r := PadTo(w.value.data, FULL_SROM_SIZE_BYTES);
  }

  /** The `for` loop of the older `emitSromBinary` over the sorted tiles. */
  method WalkAll(allTiles: seq<Tile>) returns (r: Result<Stream>)
    ensures r == Walk(allTiles)
  {
    var sData: seq<int> := [];
    var curIndex := 0;
    for i := 0 to |allTiles|
      invariant Walk(allTiles[..i]) == Ok(Stream(sData, curIndex))
    {
      var tile := allTiles[i];
      assert allTiles[..i + 1][..i] == allTiles[..i];
      if tile.duplicateOf.Some? || tile.sromIndex.None? {
        continue;
      }
      sData, curIndex := FillGap(sData, curIndex, tile.sromIndex.value);
      if tile.sromBinaryData.None? {
        WalkErr(allTiles[..i + 1], allTiles[i + 1..]);
        assert allTiles[..i + 1] + allTiles[i + 1..] == allTiles;
        return Err(MissingBinaryData);
      }
      sData := sData + tile.sromBinaryData.value;
      curIndex := curIndex + 1;
    }
    assert allTiles[..|allTiles|] == allTiles;
    r := Ok(Stream(sData, curIndex));
  }

  /** The gap-filling `while`: one empty tile per slot up to `slot`. */
  method FillGap(data: seq<int>, cur: int, slot: int) returns (sData: seq<int>, curIndex: int)
    ensures sData == data + Zeros(SROM_TILE_SIZE_BYTES * Gap(cur, slot))
    ensures curIndex == cur + Gap(cur, slot)
  {
    sData, curIndex := data, cur;
    while curIndex < slot
      invariant cur <= curIndex && (curIndex == cur || curIndex <= slot)
      invariant sData == data + Zeros(SROM_TILE_SIZE_BYTES * (curIndex - cur))
    {
      ZerosAppend(SROM_TILE_SIZE_BYTES * (curIndex - cur), SROM_TILE_SIZE_BYTES);
      sData := sData + Zeros(SROM_TILE_SIZE_BYTES);
      curIndex := curIndex + 1;
    }
  }

  /** Once the walk has thrown, later tiles change nothing. */
  lemma {:induction false} WalkErr(x: seq<Tile>, y: seq<Tile>)
    requires Walk(x).Err?
    ensures Walk(x + y) == Walk(x)
    decreases |y|
  {
    if y == [] {
      assert x + y == x;
    } else {
      WalkErr(x, y[..|y| - 1]);
      assert (x + y)[..|x + y| - 1] == x + y[..|y| - 1];
    }
  }

  /** The only error the walk raises. */
  lemma {:induction false} WalkThrown(ts: seq<Tile>)
    ensures Walk(ts).Err? ==> Walk(ts).error == MissingBinaryData
    decreases |ts|
  {
    if ts != [] {
      WalkThrown(ts[..|ts| - 1]);
    }
  }

  /** Tile `t` is written, and into slot `i`. */
  function Writes(i: int): Tile -> bool {
    (t: Tile) => !Skipped(t) && t.sromIndex == Some(i)
  }

  /** Every written tile has a 32-byte payload and a slot inside the image. */
  predicate Fine(ts: seq<Tile>) {
    forall j :: 0 <= j < |ts| && !Skipped(ts[j]) ==>
      ts[j].sromBinaryData.Some? && |ts[j].sromBinaryData.value| == SROM_TILE_SIZE_BYTES
      && 0 <= ts[j].sromIndex.value < SROM_SLOTS
  }

  /** `Fine`, and no two written tiles share a slot. */
  ghost predicate Layable(ts: seq<Tile>) {
    Fine(ts) && forall i :: |Filter(ts, Writes(i))| <= 1
  }

  /** The last tile of `ts` written into slot `i`, if any. */
  function Writer(ts: seq<Tile>, i: int): Option<Tile> {
    if ts == [] then None
    else
      var t := ts[|ts| - 1];
      if !Skipped(t) && t.sromIndex == Some(i) then Some(t) else Writer(ts[..|ts| - 1], i)
  }

  /** What a correct image holds in slot `i`: the payload of the tile written there, else zeros. */
  function SlotTile(ts: seq<Tile>, i: int): seq<int> {
    match Writer(ts, i)
    case Some(w) => if w.sromBinaryData.Some? then w.sromBinaryData.value else Zeros(SROM_TILE_SIZE_BYTES)
    case None => Zeros(SROM_TILE_SIZE_BYTES)
  }

  /** The first `n` slots of a correct image. */
  function Layout(ts: seq<Tile>, n: nat): seq<int> {
    Blocks((i: int) => SlotTile(ts, i), n)
  }

  /**
   * When no two written tiles share a slot and every one fits, the older
   * emitter lays each payload at its own slot and zeros everywhere else.
   */
  lemma {:induction false} LegacyLayout(s: seq<Tile>)
    requires Layable(s)
    ensures LegacyEmitSrom(s) == Ok(Layout(s, SROM_SLOTS))
  {
    var ts := SortByKey(s, SlotKey);
    LayablePerm(s);
    WalkLaid(ts);
    LaidPads(ts, Walk(ts).value);
    SameWriters(ts, s, SROM_SLOTS);
  }

  /** Padding a laid-out stream gives the whole layout. */
  lemma {:induction false} LaidPads(ts: seq<Tile>, e: Stream)
    requires Fine(ts) && Laid(ts, e)
    ensures PadTo(e.data, FULL_SROM_SIZE_BYTES) == Ok(Layout(ts, SROM_SLOTS))
  {
    LayoutEmpty(ts, e.cur, SROM_SLOTS);
    FineTiled(ts);
    BlocksLength((i: int) => SlotTile(ts, i), SROM_TILE_SIZE_BYTES, e.cur);
    assert SROM_SLOTS == 4096 && FULL_SROM_SIZE_BYTES == 131072;
    assert FULL_SROM_SIZE_BYTES - |e.data| == SROM_TILE_SIZE_BYTES * (SROM_SLOTS - e.cur);
    PadsTo(e.data, Layout(ts, SROM_SLOTS));
  }

  lemma {:induction false} PadsTo(data: seq<int>, image: seq<int>)
    requires |data| <= FULL_SROM_SIZE_BYTES && image == data + Zeros(FULL_SROM_SIZE_BYTES - |data|)
    ensures PadTo(data, FULL_SROM_SIZE_BYTES) == Ok(image)
  {
  }

  lemma {:induction false} LayoutSnoc(ts: seq<Tile>, n: nat)
    ensures Layout(ts, n + 1) == Layout(ts, n) + SlotTile(ts, n)
  {
  }

  /** Byte `k` of slot `i` of a correct image: that slot's tile's byte. */
  lemma {:induction false} LayoutByte(s: seq<Tile>, i: int, k: int)
    requires Fine(s) && 0 <= i < SROM_SLOTS && 0 <= k < SROM_TILE_SIZE_BYTES
    ensures var image := Layout(s, SROM_SLOTS);
      |image| == FULL_SROM_SIZE_BYTES && i * SROM_TILE_SIZE_BYTES + k < |image|
      && |SlotTile(s, i)| == SROM_TILE_SIZE_BYTES
      && image[i * SROM_TILE_SIZE_BYTES + k] == SlotTile(s, i)[k]
  {
    FineTiled(s);
    BlocksAt((j: int) => SlotTile(s, j), SROM_TILE_SIZE_BYTES, SROM_SLOTS, i, k);
  }

  /** The writer of a slot is a written tile of the list, in that slot. */
  lemma {:induction false} WriterIn(ts: seq<Tile>, i: int)
    requires Writer(ts, i).Some?
    ensures exists j :: 0 <= j < |ts| && ts[j] == Writer(ts, i).value
    ensures !Skipped(Writer(ts, i).value) && Writer(ts, i).value.sromIndex == Some(i)
  {
    var init, t := ts[..|ts| - 1], ts[|ts| - 1];
    if !(!Skipped(t) && t.sromIndex == Some(i)) {
      WriterIn(init, i);
      var j :| 0 <= j < |init| && init[j] == Writer(init, i).value;
      assert ts[j] == init[j];
    }
  }

  /** The writer added by one more tile at the back. */
  lemma {:induction false} WriterSnoc(init: seq<Tile>, t: Tile, i: int)
    ensures Writer(init + [t], i) == if Writes(i)(t) then Some(t) else Writer(init, i)
  {
    assert (init + [t])[..|init|] == init;
  }

  /** The writer is the last tile the `Writes` filter keeps. */
  lemma {:induction false} WriterFilter(ts: seq<Tile>, i: int)
    ensures var f := Filter(ts, Writes(i));
      Writer(ts, i) == if f == [] then None else Some(f[|f| - 1])
  {
    if ts != [] {
      var init, t := ts[..|ts| - 1], ts[|ts| - 1];
      WriterFilter(init, i);
      assert Filter(ts, Writes(i)) == Filter(init, Writes(i)) + (if Writes(i)(t) then [t] else []);
    }
  }

  /** Every slot tile of fine tiles is 32 bytes. */
  lemma {:induction false} FineTiled(ts: seq<Tile>)
    requires Fine(ts)
    ensures forall i :: |SlotTile(ts, i)| == SROM_TILE_SIZE_BYTES
  {
    forall i ensures |SlotTile(ts, i)| == SROM_TILE_SIZE_BYTES {
      if Writer(ts, i).Some? {
        WriterIn(ts, i);
      }
    }
  }

  /** Slots with no written tile are zeros. */
  lemma {:induction false} LayoutEmpty(ts: seq<Tile>, c: nat, m: nat)
    requires c <= m && Below(ts, c)
    ensures Layout(ts, m) == Layout(ts, c) + Zeros(SROM_TILE_SIZE_BYTES * (m - c))
  {
    forall j | c <= j < m ensures SlotTile(ts, j) == Zeros(SROM_TILE_SIZE_BYTES) {
      NoWriterPast(ts, c, j);
    }
    BlocksZeros((i: int) => SlotTile(ts, i), SROM_TILE_SIZE_BYTES, c, m);
  }

  /** Two tile lists that write the same tiles into the first `n` slots lay them out alike. */
  lemma {:induction false} SameWriters(x: seq<Tile>, y: seq<Tile>, n: nat)
    requires forall j :: 0 <= j < n ==> Filter(x, Writes(j)) == Filter(y, Writes(j))
    ensures Layout(x, n) == Layout(y, n)
  {
    forall j | 0 <= j < n ensures SlotTile(x, j) == SlotTile(y, j) {
      WriterFilter(x, j);
      WriterFilter(y, j);
    }
    SameSlots(x, y, n);
  }

  /** Two tile lists with the same first `n` slot tiles lay them out alike. */
  lemma {:induction false} SameSlots(x: seq<Tile>, y: seq<Tile>, n: nat)
    requires forall j :: 0 <= j < n ==> SlotTile(x, j) == SlotTile(y, j)
    ensures Layout(x, n) == Layout(y, n)
  {
    BlocksSame((i: int) => SlotTile(x, i), (i: int) => SlotTile(y, i), n);
  }

  /** Sorting by slot keeps `Layable` and every slot's writers. */
  lemma {:induction false} LayablePerm(s: seq<Tile>)
    requires Layable(s)
    ensures SortedByKey(SortByKey(s, SlotKey), SlotKey) && Layable(SortByKey(s, SlotKey))
    ensures forall j :: Filter(SortByKey(s, SlotKey), Writes(j)) == Filter(s, Writes(j))
  {
    var ts := SortByKey(s, SlotKey);
    SortByKeySorted(s, SlotKey);
    FinePerm(s, ts);
    forall j ensures Filter(ts, Writes(j)) == Filter(s, Writes(j)) {
      SortKeepsKeyOrder(s, SlotKey, Writes(j));
    }
  }

  /** Every written tile of `ts` is below slot `cur`. */
  predicate Below(ts: seq<Tile>, cur: int) {
    forall j :: 0 <= j < |ts| && !Skipped(ts[j]) ==> ts[j].sromIndex.value < cur
  }

  /** No written tile is at or past `cur`. */
  lemma {:induction false} NoWriterPast(ts: seq<Tile>, cur: int, i: int)
    requires Below(ts, cur) && cur <= i
    ensures Writer(ts, i) == None
  {
    if Writer(ts, i).Some? {
      WriterIn(ts, i);
    }
  }

  /** `Fine` holds of every reordering. */
  lemma {:induction false} FinePerm(x: seq<Tile>, y: seq<Tile>)
    requires Fine(x) && multiset(x) == multiset(y)
    ensures Fine(y)
  {
    forall j | 0 <= j < |y| ensures y[j] in x {
      assert y[j] in multiset(y);
    }
  }

  /**
   * The walk so far wrote the first `e.cur` slots of the layout, every
   * written tile of `ts` is below the cursor, and the slot just below it
   * is written.
   */
  predicate Laid(ts: seq<Tile>, e: Stream) {
    0 <= e.cur <= SROM_SLOTS && Below(ts, e.cur)
    && (e.cur == 0 || Writer(ts, e.cur - 1).Some?)
    && e.data == Layout(ts, e.cur)
  }

  /** The walk over sorted, layable tiles succeeds and lays them out. */
  lemma {:induction false} WalkLaid(ts: seq<Tile>)
    requires SortedByKey(ts, SlotKey) && Layable(ts)
    ensures Walk(ts).Ok? && Laid(ts, Walk(ts).value)
    decreases |ts|
  {
    if ts != [] {
      var init, t := ts[..|ts| - 1], ts[|ts| - 1];
      assert ts == init + [t];
      LayableInit(init, t);
      WalkLaid(init);
      LaidStep(init, t, Walk(init).value);
    }
  }

  /** Dropping the last tile keeps a list sorted and layable. */
  lemma {:induction false} LayableInit(init: seq<Tile>, t: Tile)
    requires SortedByKey(init + [t], SlotKey) && Layable(init + [t])
    ensures SortedByKey(init, SlotKey) && Layable(init)
  {
    var ts := init + [t];
    forall j | 0 <= j < |init| ensures init[j] == ts[j] {
    }
    forall j ensures |Filter(init, Writes(j))| <= 1 {
      FilterSnoc(init, t, Writes(j));
    }
  }

  /** One written or skipped tile keeps `Laid`. */
  lemma {:induction false} LaidStep(init: seq<Tile>, t: Tile, e: Stream)
    requires SortedByKey(init + [t], SlotKey) && Layable(init + [t]) && Laid(init, e)
    ensures Step(e, t).Ok? && Laid(init + [t], Step(e, t).value)
  {
    if Skipped(t) {
      LaidSkip(init, t, e);
    } else {
      AtOrPastCursor(init, t, e);
      assert (init + [t])[|init|] == t;
      LaidWrite(init, t, e);
    }
  }

  /** A skipped tile changes neither the stream nor any slot's writer. */
  lemma {:induction false} LaidSkip(init: seq<Tile>, t: Tile, e: Stream)
    requires Laid(init, e) && Skipped(t)
    ensures Step(e, t) == Ok(e) && Laid(init + [t], e)
  {
    var ts := init + [t];
    forall j ensures Writer(ts, j) == Writer(init, j) {
      WriterSnoc(init, t, j);
    }
    SameSlots(ts, init, e.cur);
    BelowSnoc(init, t, e.cur, e.cur);
  }

  /** In sorted order, a written tile never sits below the cursor of the tiles before it. */
  lemma {:induction false} AtOrPastCursor(init: seq<Tile>, t: Tile, e: Stream)
    requires SortedByKey(init + [t], SlotKey) && Layable(init + [t]) && Laid(init, e) && !Skipped(t)
    ensures e.cur <= t.sromIndex.value
  {
    assert (init + [t])[|init|] == t;
    if e.cur > 0 {
      WriterIn(init, e.cur - 1);
      var j :| 0 <= j < |init| && init[j] == Writer(init, e.cur - 1).value;
      SortedBefore(init, t, j);
      NotTwice(init, t, e.cur - 1);
    }
  }

  /** In a sorted list, a tile before the last one has no larger key. */
  lemma {:induction false} SortedBefore(init: seq<Tile>, t: Tile, j: int)
    requires SortedByKey(init + [t], SlotKey) && 0 <= j < |init|
    ensures KeyLe(SlotKey(init[j]), SlotKey(t))
  {
    var ts := init + [t];
    assert ts[j] == init[j] && ts[|ts| - 1] == t;
  }

  /** A slot already written is not written by another tile of a layable list. */
  lemma {:induction false} NotTwice(init: seq<Tile>, t: Tile, m: int)
    requires Layable(init + [t]) && Writer(init, m).Some? && !Skipped(t)
    ensures t.sromIndex.value != m
  {
    if t.sromIndex.value == m {
      WriterFilter(init, m);
      FilterSnoc(init, t, Writes(m));
    }
  }

  /** A written tile whose slot is at or past the cursor keeps `Laid`. */
  lemma {:induction false} LaidWrite(init: seq<Tile>, t: Tile, e: Stream)
    requires Laid(init, e) && !Skipped(t) && e.cur <= t.sromIndex.value < SROM_SLOTS
    requires t.sromBinaryData.Some?
    ensures Step(e, t).Ok? && Laid(init + [t], Step(e, t).value)
  {
    var m := t.sromIndex.value;
    var e' := Step(e, t).value;
    assert e' == Stream(e.data + Zeros(SROM_TILE_SIZE_BYTES * (m - e.cur)) + t.sromBinaryData.value, m + 1);
    WriteLayout(init, t, e);
    BelowSnoc(init, t, e.cur, m + 1);
  }

  /** The layout after a tile written at or past the cursor: the gap's zeros, then its payload. */
  lemma {:induction false} WriteLayout(init: seq<Tile>, t: Tile, e: Stream)
    requires Laid(init, e) && !Skipped(t) && t.sromBinaryData.Some? && e.cur <= t.sromIndex.value
    ensures var m := t.sromIndex.value;
      Writer(init + [t], m) == Some(t)
      && Layout(init + [t], m + 1) == e.data + Zeros(SROM_TILE_SIZE_BYTES * (m - e.cur)) + t.sromBinaryData.value
  {
    var ts := init + [t];
    var m := t.sromIndex.value;
    forall j | 0 <= j < m ensures SlotTile(ts, j) == SlotTile(init, j) {
      WriterSnoc(init, t, j);
    }
    WriterSnoc(init, t, m);
    LayoutEmpty(init, e.cur, m);
    SameSlots(ts, init, m);
    LayoutSnoc(ts, m);
  }

  /** A tile below `c` added to tiles below `c0 <= c` leaves all below `c`. */
  lemma {:induction false} BelowSnoc(init: seq<Tile>, t: Tile, c0: int, c: int)
    requires Below(init, c0) && c0 <= c && (Skipped(t) || t.sromIndex.value < c)
    ensures Below(init + [t], c)
  {
    var ts := init + [t];
    forall j | 0 <= j < |ts| && !Skipped(ts[j]) ensures ts[j].sromIndex.value < c {
      if j < |init| {
        assert init[j] == ts[j];
      }
    }
  }

  /** A written tile without a payload makes the older emitter throw. */
  lemma {:induction false} LegacyMissingPayloadThrows(s: seq<Tile>)
    requires exists t :: t in s && !Skipped(t) && t.sromBinaryData.None?
    ensures LegacyEmitSrom(s) == Err(MissingBinaryData)
  {
    var t :| t in s && !Skipped(t) && t.sromBinaryData.None?;
    var ts := SortByKey(s, SlotKey);
    assert t in multiset(s);
    var k :| 0 <= k < |ts| && ts[k] == t;
    WalkThrow(ts, k);
  }

  lemma {:induction false} WalkThrow(ts: seq<Tile>, k: int)
    requires 0 <= k < |ts| && !Skipped(ts[k]) && ts[k].sromBinaryData.None?
    ensures Walk(ts) == Err(MissingBinaryData)
    decreases |ts|
  {
    var init := ts[..|ts| - 1];
    if k < |ts| - 1 {
      assert init[k] == ts[k];
      WalkThrow(init, k);
    } else if Walk(init).Err? {
      WalkThrown(init);
    }
  }

  /** Every written tile of `ts` carries a 32-byte payload; slots are not bounded. */
  predicate Sized(ts: seq<Tile>) {
    forall j :: 0 <= j < |ts| && !Skipped(ts[j]) ==>
      ts[j].sromBinaryData.Some? && |ts[j].sromBinaryData.value| == SROM_TILE_SIZE_BYTES
  }

  /**
   * Whatever the order and however many tiles share a slot, the stream
   * holds 32 bytes per slot passed, and the cursor is past every written
   * slot.
   */
  lemma {:induction false} WalkGrows(ts: seq<Tile>)
    requires Sized(ts)
    ensures Walk(ts).Ok? && 0 <= Walk(ts).value.cur
    ensures |Walk(ts).value.data| == SROM_TILE_SIZE_BYTES * Walk(ts).value.cur
    ensures Below(ts, Walk(ts).value.cur)
  {
    if ts != [] {
      var init := ts[..|ts| - 1];
      var t := ts[|ts| - 1];
      assert ts == init + [t];
      assert Sized(init) by {
        forall j | 0 <= j < |init| ensures init[j] == ts[j] {}
      }
      WalkGrows(init);
      var e := Walk(init).value;
      if Skipped(t) {
        BelowSnoc(init, t, e.cur, e.cur);
      } else {
        var gap := Gap(e.cur, t.sromIndex.value);
        assert |Zeros(SROM_TILE_SIZE_BYTES * gap)| == SROM_TILE_SIZE_BYTES * gap;
        BelowSnoc(init, t, e.cur, e.cur + gap + 1);
      }
    }
  }

  /** A written tile at a slot past the image makes the older emitter throw. */
  lemma {:induction false} LegacyOverrunThrows(s: seq<Tile>, t: Tile)
    requires Sized(s) && t in s && !Skipped(t) && t.sromIndex.value >= SROM_SLOTS
    ensures LegacyEmitSrom(s) == Err(PaddingTooSmall)
  {
    var ts := SortByKey(s, SlotKey);
    assert Sized(ts) by {
      forall j | 0 <= j < |ts| && !Skipped(ts[j]) ensures ts[j] in s {
        assert ts[j] in multiset(ts);
      }
    }
    WalkGrows(ts);
    assert t in multiset(ts);
    var k :| 0 <= k < |ts| && ts[k] == t;
  }

  /**
   * Two written tiles claiming one slot `m` are both appended: the second
   * payload lands in slot `m + 1`.
   */
  lemma {:induction false} SharedSlotAppendsBoth(a: Tile, b: Tile, m: int)
    requires Writes(m)(a) && Writes(m)(b) && 0 <= m && m + 2 <= SROM_SLOTS
    requires a.sromBinaryData.Some? && |a.sromBinaryData.value| == SROM_TILE_SIZE_BYTES
    requires b.sromBinaryData.Some? && |b.sromBinaryData.value| == SROM_TILE_SIZE_BYTES
    ensures LegacyEmitSrom([a, b]) ==
      Ok(Zeros(SROM_TILE_SIZE_BYTES * m) + a.sromBinaryData.value + b.sromBinaryData.value
         + Zeros(FULL_SROM_SIZE_BYTES - SROM_TILE_SIZE_BYTES * (m + 2)))
  {
    var ts := [a, b];
    assert ts[..1] == [a];
    assert [a][..0] == [];
    assert SortByKey([a], SlotKey) == [a];
    assert Insert(b, [a], SlotKey) == [a] + Insert(b, [], SlotKey);
    assert SortByKey(ts, SlotKey) == ts;
    assert Walk([a]) == Ok(Stream(Zeros(SROM_TILE_SIZE_BYTES * m) + a.sromBinaryData.value, m + 1)) by {
      assert Walk([]) == Ok(Stream([], 0));
      assert Gap(0, m) == m;
      assert [] + Zeros(SROM_TILE_SIZE_BYTES * m) == Zeros(SROM_TILE_SIZE_BYTES * m);
    }
    var data := Zeros(SROM_TILE_SIZE_BYTES * m) + a.sromBinaryData.value + b.sromBinaryData.value;
    assert Walk(ts) == Ok(Stream(data, m + 2)) by {
      assert Gap(m + 1, m) == 0;
      assert Zeros(SROM_TILE_SIZE_BYTES * m) + a.sromBinaryData.value + Zeros(0) == Zeros(SROM_TILE_SIZE_BYTES * m) + a.sromBinaryData.value;
    }
    PadsTo(data, data + Zeros(FULL_SROM_SIZE_BYTES - SROM_TILE_SIZE_BYTES * (m + 2)));
  }
}
