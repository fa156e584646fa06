/**
 * `emitCromBinaries`: builds the two sprite ROM bit-plane streams. The
 * tiles are walked in slot order; every slot the walk skips gets an empty
 * 64-byte tile in both streams, then a master's payload is appended and
 * after it the payloads of its animation frames, one slot each. Nothing
 * checks that a tile's slot is still free, and the streams are not padded.
 *
 * The tiles are an arena: a master's frames are arena indices
 * (`childAnimationFrames`), looked up in the tiles handed to the emitter.
 */
module CromEmit {
  import opened Wrappers
  import opened Seqs
  import opened Sorting
  import opened Tiles
  import opened CromTile

  /** `EMPTY_TILE`, in both planes. */
  function EmptyTile(): (d: CromData)
    ensures |d.cEvenData| == |d.cOddData| == CROM_STREAM_BYTES
  {
    CromData(Zeros(CROM_STREAM_BYTES), Zeros(CROM_STREAM_BYTES))
  }

  /** Both streams written so far and the slot the cursor is at. */
  datatype Streams = Streams(even: seq<int>, odd: seq<int>, cur: int)

  /** The key `sortByCromIndex` compares: slotted tiles first, by slot. */
  function CromKey(t: Tile): Option<int> {
    t.cromIndex
  }

  /** The tiles the loop `continue`s past. */
  predicate Skipped(t: Tile) {
    t.duplicateOf.Some? || t.childOf.Some? || t.cromIndex.None?
  }

  /** A master's animation frames; an absent list has none. */
  function Children(t: Tile): seq<nat> {
    if t.childAnimationFrames.Some? then t.childAnimationFrames.value else []
  }

  /** The passes of the gap-filling `while` before a tile in slot `slot`. */
  function Gap(cur: int, slot: int): nat {
    if cur < slot then slot - cur else 0
  }

  /** `d` pushed onto both streams; the cursor stays. */
  function Push(e: Streams, d: CromData): Streams {
    Streams(e.even + d.cEvenData, e.odd + d.cOddData, e.cur)
  }

  /** The gap-filling `while`: an empty tile for every slot up to `slot`. */
  function Fill(e: Streams, slot: int): Streams {
    var g := Gap(e.cur, slot);
    Streams(e.even + Zeros(CROM_STREAM_BYTES * g), e.odd + Zeros(CROM_STREAM_BYTES * g), e.cur + g)
  }

  /** Arena tile `c` exists and has a payload. */
  predicate Present(s: seq<Tile>, c: nat) {
    c < |s| && s[c].cromBinaryData.Some?
  }

  /**
   * The inner `for` over frames `cs`: each frame's payload is pushed and
   * the cursor advances. A frame without a payload (or an index outside
   * the arena) throws.
   */
  function PushChildren(s: seq<Tile>, e: Streams, cs: seq<nat>): Result<Streams> {
    if cs == [] then Ok(e)
    else
      match PushChildren(s, e, cs[..|cs| - 1])
      case Err(x) => Err(x)
      case Ok(f) =>
        var c := cs[|cs| - 1];
        if Present(s, c) then
          var g := Push(f, s[c].cromBinaryData.value);
          Ok(g.(cur := g.cur + 1))
        else Err(MissingBinaryData)
  }

  /** One pass of the outer `for`; a master without a payload throws. */
  function Step(s: seq<Tile>, e: Streams, t: Tile): Result<Streams> {
    if Skipped(t) then Ok(e)
    else if t.cromBinaryData.None? then Err(MissingBinaryData)
    else
      match PushChildren(s, Push(Fill(e, t.cromIndex.value), t.cromBinaryData.value), Children(t))
      case Err(x) => Err(x)
      case Ok(f) => Ok(f.(cur := f.cur + 1))
  }

  /** The outer `for` over `ts`, from empty streams at slot 0. */
  function Walk(s: seq<Tile>, ts: seq<Tile>): Result<Streams> {
    if ts == [] then Ok(Streams([], [], 0))
    else
      match Walk(s, ts[..|ts| - 1])
      case Err(x) => Err(x)
      case Ok(e) => Step(s, e, ts[|ts| - 1])
  }

  /** The result of `emitCromBinaries(s)`. */
  function EmitCrom(s: seq<Tile>): (r: Result<CromData>)
    ensures r.Err? ==> r.error == MissingBinaryData
  {
    var w := Walk(s, SortByKey(s, CromKey));
    WalkThrown(s, SortByKey(s, CromKey));
    if w.Err? then Err(w.error) else Ok(CromData(w.value.even, w.value.odd))
  }

  /**
   * `emitCromBinaries`. The tiles arrive as a value, so sorting the copy
   * cannot reorder the caller's tiles.
   */
  method EmitCromBinaries(sourceTiles: seq<Tile>) returns (r: Result<CromData>)
    ensures r == EmitCrom(sourceTiles)
  {
    var allTiles := SortByKey(sourceTiles, CromKey);
    WalkThrown(sourceTiles, allTiles);
    var e := Streams([], [], 0);
    for i := 0 to |allTiles|
      invariant Walk(sourceTiles, allTiles[..i]) == Ok(e)
    {
      assert allTiles[..i + 1][..i] == allTiles[..i];
      var f := EmitTile(sourceTiles, e, allTiles[i]);
      if f.Err? {
        WalkErr(sourceTiles, allTiles[..i + 1], allTiles[i + 1..]);
        assert allTiles[..i + 1] + allTiles[i + 1..] == allTiles;
        return Err(f.error);
      }
      e := f.value;
    }
    assert allTiles[..|allTiles|] == allTiles;
    r := Ok(CromData(e.even, e.odd));
  }

  /** One pass of the outer `for`, on the streams and cursor `e`. */
  method EmitTile(s: seq<Tile>, e: Streams, tile: Tile) returns (r: Result<Streams>)
    ensures r == Step(s, e, tile)
  {
    if tile.duplicateOf.Some? || tile.childOf.Some? || tile.cromIndex.None? {
      return Ok(e);
    }
    var cEvenData, cOddData, curIndex := FillGap(e.even, e.odd, e.cur, tile.cromIndex.value);
    if tile.cromBinaryData.None? {
      return Err(MissingBinaryData);
    }
    cEvenData := cEvenData + tile.cromBinaryData.value.cEvenData;
    cOddData := cOddData + tile.cromBinaryData.value.cOddData;
    if tile.childAnimationFrames.Some? {
      var f := PushAll(s, Streams(cEvenData, cOddData, curIndex), tile.childAnimationFrames.value);
      if f.Err? {
        return Err(f.error);
      }
      cEvenData, cOddData, curIndex := f.value.even, f.value.odd, f.value.cur;
    }
    curIndex := curIndex + 1;
    r := Ok(Streams(cEvenData, cOddData, curIndex));
  }

  /** The gap-filling `while`: one empty tile per slot up to `slot`, in both streams. */
  method FillGap(even: seq<int>, odd: seq<int>, cur: int, slot: int)
    returns (cEvenData: seq<int>, cOddData: seq<int>, curIndex: int)
    ensures Streams(cEvenData, cOddData, curIndex) == Fill(Streams(even, odd, cur), slot)
  {
    cEvenData, cOddData, curIndex := even, odd, cur;
    while curIndex < slot
      invariant cur <= curIndex && (curIndex == cur || curIndex <= slot)
      invariant cEvenData == even + Zeros(CROM_STREAM_BYTES * (curIndex - cur))
      invariant cOddData == odd + Zeros(CROM_STREAM_BYTES * (curIndex - cur))
    {
      ZerosAppend(CROM_STREAM_BYTES * (curIndex - cur), CROM_STREAM_BYTES);
      cEvenData := cEvenData + EmptyTile().cEvenData;
      cOddData := cOddData + EmptyTile().cOddData;
      curIndex := curIndex + 1;
    }
  }

  /** The inner `for` over a master's frames. */
  method PushAll(s: seq<Tile>, e: Streams, childFrames: seq<nat>) returns (r: Result<Streams>)
    ensures r == PushChildren(s, e, childFrames)
  {
    var cEvenData, cOddData, curIndex := e.even, e.odd, e.cur;
    for c := 0 to |childFrames|
      invariant PushChildren(s, e, childFrames[..c]) == Ok(Streams(cEvenData, cOddData, curIndex))
    {
      assert childFrames[..c + 1][..c] == childFrames[..c];
      var k := childFrames[c];
      if k >= |s| || s[k].cromBinaryData.None? {
        PushErr(s, e, childFrames[..c + 1], childFrames[c + 1..]);
        assert childFrames[..c + 1] + childFrames[c + 1..] == childFrames;
        return Err(MissingBinaryData);
      }
      cEvenData := cEvenData + s[k].cromBinaryData.value.cEvenData;
      cOddData := cOddData + s[k].cromBinaryData.value.cOddData;
      curIndex := curIndex + 1;
    }
    assert childFrames[..|childFrames|] == childFrames;
    r := Ok(Streams(cEvenData, cOddData, curIndex));
  }

  /** Once the frame loop has thrown, later frames change nothing. */
  lemma {:induction false} PushErr(s: seq<Tile>, e: Streams, x: seq<nat>, y: seq<nat>)
    requires PushChildren(s, e, x).Err?
    ensures PushChildren(s, e, x + y) == PushChildren(s, e, x)
    decreases |y|
  {
    if y == [] {
      assert x + y == x;
    } else {
      PushErr(s, e, x, y[..|y| - 1]);
      assert (x + y)[..|x + y| - 1] == x + y[..|y| - 1];
    }
  }

  /** Once the walk has thrown, later tiles change nothing. */
  lemma {:induction false} WalkErr(s: seq<Tile>, x: seq<Tile>, y: seq<Tile>)
    requires Walk(s, x).Err?
    ensures Walk(s, x + y) == Walk(s, x)
    decreases |y|
  {
    if y == [] {
      assert x + y == x;
    } else {
      WalkErr(s, x, y[..|y| - 1]);
      assert (x + y)[..|x + y| - 1] == x + y[..|y| - 1];
    }
  }

  /** The only error the frame loop raises. */
  lemma {:induction false} PushThrown(s: seq<Tile>, e: Streams, cs: seq<nat>)
    ensures PushChildren(s, e, cs).Err? ==> PushChildren(s, e, cs).error == MissingBinaryData
    decreases |cs|
  {
    if cs != [] {
      PushThrown(s, e, cs[..|cs| - 1]);
    }
  }

  /** The only error the walk raises. */
  lemma {:induction false} WalkThrown(s: seq<Tile>, ts: seq<Tile>)
    ensures Walk(s, ts).Err? ==> Walk(s, ts).error == MissingBinaryData
    decreases |ts|
  {
    if ts != [] {
      WalkThrown(s, ts[..|ts| - 1]);
      var init := ts[..|ts| - 1];
      if Walk(s, init).Ok? {
        var e := Walk(s, init).value;
        var t := ts[|ts| - 1];
        if !Skipped(t) && t.cromBinaryData.Some? {
          PushThrown(s, Push(Fill(e, t.cromIndex.value), t.cromBinaryData.value), Children(t));
        }
      }
    }
  }

  /** The slot a tile's payload belongs to; an unslotted tile has none and reads as 0. */
  function Slot(t: Tile): int {
    if t.cromIndex.Some? then t.cromIndex.value else 0
  }

  /** The slot just past master `t`'s run: the master, then one slot per frame. */
  function End(t: Tile): int {
    Slot(t) + 1 + |Children(t)|
  }

  /** Slot `i` lies in the run of emitted master `t`. */
  predicate Covers(t: Tile, i: int) {
    !Skipped(t) && Slot(t) <= i < End(t)
  }

  /** No tile of `ts` covers slot `i`. */
  predicate Uncovered(ts: seq<Tile>, i: int) {
    forall t :: t in ts ==> !Covers(t, i)
  }

  /** A 64-byte tile in each plane. */
  predicate Sized(d: CromData) {
    |d.cEvenData| == CROM_STREAM_BYTES && |d.cOddData| == CROM_STREAM_BYTES
  }

  /** The payload of arena tile `c`, a frame of some master. */
  function ChildData(s: seq<Tile>, c: nat): CromData {
    if Present(s, c) then s[c].cromBinaryData.value else EmptyTile()
  }

  /** What slot `i` of master `t`'s run holds: the master's payload, then each frame's. */
  function SlotData(s: seq<Tile>, t: Tile, i: int): CromData {
    if i == Slot(t) && t.cromBinaryData.Some? then t.cromBinaryData.value
    else if Slot(t) < i < End(t) then ChildData(s, Children(t)[i - Slot(t) - 1])
    else EmptyTile()
  }

  /**
   * Emitted master `t` can be written without crashing: it and each of its
   * frames has a payload, 64 bytes per plane, and its slot is not negative.
   */
  predicate FitsTile(s: seq<Tile>, t: Tile) {
    var cs := Children(t);
    0 <= Slot(t) && t.cromBinaryData.Some? && Sized(t.cromBinaryData.value) && FramesFit(s, cs)
  }

  /** Every frame of `cs` is an arena tile with a 64-byte payload per plane. */
  predicate FramesFit(s: seq<Tile>, cs: seq<nat>) {
    forall c :: 0 <= c < |cs| ==> Present(s, cs[c]) && Sized(s[cs[c]].cromBinaryData.value)
  }

  /** Frame `c` of `cs` sits in slot `base + c`. */
  predicate FramesAt(s: seq<Tile>, h: Streams, base: int, cs: seq<nat>) {
    forall c :: 0 <= c < |cs| ==> BlockIs(h, base + c, ChildData(s, cs[c]))
  }

  /** Every emitted master of `ts` fits. */
  predicate Fits(s: seq<Tile>, ts: seq<Tile>) {
    forall t :: t in ts && !Skipped(t) ==> FitsTile(s, t)
  }

  /**
   * No two runs of emitted masters overlap: distinct masters occupy
   * disjoint slot ranges, and no master occurs twice.
   */
  predicate NoCollide(ts: seq<Tile>) {
    (forall a, b :: a in ts && b in ts && !Skipped(a) && !Skipped(b) && a != b ==> End(a) <= Slot(b) || End(b) <= Slot(a))
    && forall a :: a in ts && !Skipped(a) ==> multiset(ts)[a] <= 1
  }

  /** Slot `i` of both streams holds `d`. */
  predicate BlockIs(e: Streams, i: int, d: CromData) {
    0 <= i && 64 * i + 64 <= |e.even| && 64 * i + 64 <= |e.odd|
    && e.even[64 * i..64 * i + 64] == d.cEvenData
    && e.odd[64 * i..64 * i + 64] == d.cOddData
  }

  /** Every slot of master `t`'s run holds that slot's payload. */
  predicate RunAt(s: seq<Tile>, e: Streams, t: Tile) {
    forall i :: Slot(t) <= i < End(t) ==> BlockIs(e, i, SlotData(s, t, i))
  }

  /**
   * `e` is the image of the tiles `ts` of arena `s`: both streams hold
   * 64 bytes per slot up to the cursor, every emitted master's run sits
   * at its slots, every other slot is an empty tile, and the cursor stops
   * at the end of a run (or at 0): nothing is padded.
   */
  predicate Laid(s: seq<Tile>, ts: seq<Tile>, e: Streams) {
    0 <= e.cur && |e.even| == 64 * e.cur && |e.odd| == 64 * e.cur
    && (forall t :: t in ts && !Skipped(t) ==> End(t) <= e.cur && RunAt(s, e, t))
    && (forall i :: 0 <= i < e.cur && Uncovered(ts, i) ==> BlockIs(e, i, EmptyTile()))
    && (e.cur == 0 || exists t :: t in ts && !Skipped(t) && End(t) == e.cur)
  }

  /**
   * When every emitted master fits and no two runs overlap, the streams
   * are the image of the tiles: each run at its slots, empty tiles in
   * between, and nothing past the last run.
   */
  lemma {:induction false} CromLayout(s: seq<Tile>)
    requires Fits(s, s) && NoCollide(s)
    ensures EmitCrom(s).Ok?
    ensures var d := EmitCrom(s).value;
      Laid(s, s, Streams(d.cEvenData, d.cOddData, |d.cEvenData| / 64))
  {
    var ts := SortByKey(s, CromKey);
    SortByKeySorted(s, CromKey);
    assert forall t :: t in ts <==> t in s by {
      forall t ensures t in ts <==> t in s {
        assert t in ts <==> t in multiset(ts);
      }
    }
    assert NoCollide(ts) by {
      assert forall a :: multiset(ts)[a] == multiset(s)[a];
    }
    WalkLaid(s, ts);
    var e := Walk(s, ts).value;
    assert e.cur == |e.even| / 64;
    LaidSame(s, ts, s, e);
  }

  /** `Laid` reads the walked tiles only by membership. */
  lemma {:induction false} LaidSame(s: seq<Tile>, x: seq<Tile>, y: seq<Tile>, e: Streams)
    requires Laid(s, x, e) && forall t :: t in x <==> t in y
    ensures Laid(s, y, e)
  {
    forall i | 0 <= i < e.cur && Uncovered(y, i) ensures BlockIs(e, i, EmptyTile()) {
      assert Uncovered(x, i);
    }
  }

  /** On tiles in slot order without overlapping runs, each step extends the image. */
  lemma {:induction false} WalkLaid(s: seq<Tile>, ts: seq<Tile>)
    requires SortedByKey(ts, CromKey) && Fits(s, ts) && NoCollide(ts)
    ensures Walk(s, ts).Ok? && Laid(s, ts, Walk(s, ts).value)
    decreases |ts|
  {
    if ts == [] {
    } else {
      var init := ts[..|ts| - 1];
      var t := ts[|ts| - 1];
      assert ts == init + [t];
      FitsInit(s, init, t);
      NoCollideInit(init, t);
      SortedInit(init, t);
      WalkLaid(s, init);
      var e := Walk(s, init).value;
      if Skipped(t) {
        LaidSkip(s, init, t, e);
      } else {
        Clear(init, t, e.cur);
        LaidStep(s, init, t, e);
      }
    }
  }

  lemma {:induction false} FitsInit(s: seq<Tile>, init: seq<Tile>, t: Tile)
    requires Fits(s, init + [t])
    ensures Fits(s, init) && (!Skipped(t) ==> FitsTile(s, t))
  {
    assert forall u :: u in init ==> u in init + [t];
  }

  lemma {:induction false} NoCollideInit(init: seq<Tile>, t: Tile)
    requires NoCollide(init + [t])
    ensures NoCollide(init)
  {
    assert multiset(init + [t]) == multiset(init) + multiset{t};
    assert forall u :: u in init ==> u in init + [t];
  }

  lemma {:induction false} SortedInit(init: seq<Tile>, t: Tile)
    requires SortedByKey(init + [t], CromKey)
    ensures SortedByKey(init, CromKey)
    ensures forall u :: u in init ==> KeyLe(CromKey(u), CromKey(t))
  {
    var ts := init + [t];
    forall i, j | 0 <= i < j < |init| ensures KeyLe(CromKey(init[i]), CromKey(init[j])) {
      assert init[i] == ts[i] && init[j] == ts[j];
    }
    forall u | u in init ensures KeyLe(CromKey(u), CromKey(t)) {
      var j :| 0 <= j < |init| && init[j] == u;
      assert ts[j] == u && ts[|init|] == t;
    }
  }

  /** The cursor after the earlier tiles is at or before emitted master `t`'s slot. */
  lemma {:induction false} Clear(init: seq<Tile>, t: Tile, cur: int)
    requires NoCollide(init + [t]) && !Skipped(t) && 0 <= Slot(t)
    requires forall u :: u in init ==> KeyLe(CromKey(u), CromKey(t))
    requires cur == 0 || exists u :: u in init && !Skipped(u) && End(u) == cur
    ensures cur <= Slot(t)
  {
    if cur != 0 {
      var u :| u in init && !Skipped(u) && End(u) == cur;
      assert multiset(init + [t]) == multiset(init) + multiset{t};
      assert t in init + [t];
      assert t !in multiset(init);
      assert u != t;
    }
  }

  /** A skipped tile leaves the image as it is. */
  lemma {:induction false} LaidSkip(s: seq<Tile>, init: seq<Tile>, t: Tile, e: Streams)
    requires Laid(s, init, e) && Skipped(t)
    ensures Step(s, e, t) == Ok(e) && Laid(s, init + [t], e)
  {
    var ts := init + [t];
    forall i | 0 <= i < e.cur && Uncovered(ts, i) ensures BlockIs(e, i, EmptyTile()) {
      assert Uncovered(init, i);
    }
    assert forall u :: u in ts && !Skipped(u) ==> u in init;
    assert e.cur == 0 || exists u :: u in ts && !Skipped(u) && End(u) == e.cur;
  }

  /** A master placed at or past the cursor extends the image by its run. */
  lemma {:induction false} LaidStep(s: seq<Tile>, init: seq<Tile>, t: Tile, e: Streams)
    requires Laid(s, init, e) && !Skipped(t) && FitsTile(s, t) && e.cur <= Slot(t)
    ensures Step(s, e, t).Ok? && Laid(s, init + [t], Step(s, e, t).value)
  {
    StepRun(s, t, e);
    LaidExtend(s, init, t, e, Step(s, e, t).value);
  }

  /**
   * Writing emitted master `t` at or past the cursor appends the gap fill
   * and then its run, and moves the cursor to the run's end.
   */
  lemma {:induction false} StepRun(s: seq<Tile>, t: Tile, e: Streams)
    requires 0 <= e.cur && |e.even| == 64 * e.cur && |e.odd| == 64 * e.cur
    requires !Skipped(t) && FitsTile(s, t) && e.cur <= Slot(t)
    ensures Step(s, e, t).Ok?
    ensures var e' := Step(s, e, t).value; var f := Fill(e, Slot(t));
      f.even <= e'.even && f.odd <= e'.odd && RunAt(s, e', t)
      && e'.cur == End(t) && |e'.even| == 64 * e'.cur && |e'.odd| == 64 * e'.cur
  {
    var m := Slot(t);
    var d := t.cromBinaryData.value;
    var f := Fill(e, m);
    var g := Push(f, d);
    var cs := Children(t);
    PushLaid(s, g, cs);
    PushFrames(s, g, cs);
    var h := PushChildren(s, g, cs).value;
    var e' := h.(cur := h.cur + 1);
    assert Step(s, e, t) == Ok(e');
    assert f.even <= g.even && f.odd <= g.odd;
    RunPlaced(s, t, f, h);
    RunKept(s, t, h, e');
  }

  /**
   * The image grows by the run of emitted master `t`: the old slots and
   * the gap fill are kept, and the cursor moves to the run's end.
   */
  lemma {:induction false} LaidExtend(s: seq<Tile>, init: seq<Tile>, t: Tile, e: Streams, e': Streams)
    requires Laid(s, init, e) && !Skipped(t) && e.cur <= Slot(t) && RunAt(s, e', t)
    requires var f := Fill(e, Slot(t)); f.even <= e'.even && f.odd <= e'.odd
    requires e'.cur == End(t) && |e'.even| == 64 * e'.cur && |e'.odd| == 64 * e'.cur
    ensures Laid(s, init + [t], e')
  {
    var f := Fill(e, Slot(t));
    assert e.even <= f.even && e.odd <= f.odd;
    var ts := init + [t];
    forall u | u in ts && !Skipped(u) ensures End(u) <= e'.cur && RunAt(s, e', u) {
      if u != t {
        assert u in init;
        RunKept(s, u, e, e');
      }
    }
    forall i | 0 <= i < e'.cur && Uncovered(ts, i) ensures BlockIs(e', i, EmptyTile()) {
      assert !Covers(t, i);
      if i < e.cur {
        assert Uncovered(init, i);
        BlockKept(e, e', i, EmptyTile());
      } else {
        GapBlock(e, Slot(t), i);
        BlockKept(f, e', i, EmptyTile());
      }
    }
    assert exists u :: u in ts && !Skipped(u) && End(u) == e'.cur by {
      assert t in ts;
    }
  }

  /** The run of the master just written, from `f` after the gap fill, sits at its slots. */
  lemma {:induction false} RunPlaced(s: seq<Tile>, t: Tile, f: Streams, h: Streams)
    requires !Skipped(t) && FitsTile(s, t) && f.cur == Slot(t)
    requires |f.even| == 64 * f.cur && |f.odd| == 64 * f.cur
    requires var g := Push(f, t.cromBinaryData.value); g.even <= h.even && g.odd <= h.odd
    requires FramesAt(s, h, f.cur + 1, Children(t))
    ensures RunAt(s, h, t)
  {
    var m := Slot(t);
    var d := t.cromBinaryData.value;
    forall i | m <= i < End(t) ensures BlockIs(h, i, SlotData(s, t, i)) {
      if i == m {
        PushBlock(f, f.cur, d);
        BlockKept(Push(f, d), h, m, d);
      } else {
        assert BlockIs(h, f.cur + 1 + (i - m - 1), ChildData(s, Children(t)[i - m - 1]));
      }
    }
  }

  /** Appending to both streams keeps every slot already written. */
  lemma {:induction false} BlockKept(e: Streams, e': Streams, i: int, d: CromData)
    requires BlockIs(e, i, d) && e.even <= e'.even && e.odd <= e'.odd
    ensures BlockIs(e', i, d)
  {
    var lo := 64 * i;
    var hi := lo + 64;
    assert e'.even[lo..hi] == e.even[lo..hi];
    assert e'.odd[lo..hi] == e.odd[lo..hi];
  }

  /** A run kept by every later append. */
  lemma {:induction false} RunKept(s: seq<Tile>, u: Tile, e: Streams, e': Streams)
    requires RunAt(s, e, u) && e.even <= e'.even && e.odd <= e'.odd
    ensures RunAt(s, e', u)
  {
    forall i | Slot(u) <= i < End(u) ensures BlockIs(e', i, SlotData(s, u, i)) {
      BlockKept(e, e', i, SlotData(s, u, i));
    }
  }

  /** Each slot the gap fill passes holds an empty tile. */
  lemma {:induction false} GapBlock(e: Streams, m: int, i: int)
    requires |e.even| == 64 * e.cur && |e.odd| == 64 * e.cur
    requires 0 <= e.cur <= i < m
    ensures BlockIs(Fill(e, m), i, EmptyTile())
  {
    var f := Fill(e, m);
    var lo := 64 * i;
    var hi := lo + 64;
    assert 64 * e.cur <= lo && hi <= 64 * m;
    assert f.even[lo..hi] == Zeros(64);
    assert f.odd[lo..hi] == Zeros(64);
  }

  /** A payload pushed onto streams of `i` slots lands in slot `i`. */
  lemma {:induction false} PushBlock(f: Streams, i: int, d: CromData)
    requires |f.even| == 64 * i && |f.odd| == 64 * i
    requires 0 <= i && Sized(d)
    ensures BlockIs(Push(f, d), i, d)
  {
    var g := Push(f, d);
    assert g.even[|f.even|..] == d.cEvenData;
    assert g.odd[|f.odd|..] == d.cOddData;
  }

  /**
   * The frame loop, after the master's payload: frame `c` lands in the
   * slot `c + 1` past the cursor, and the streams only grow.
   */
  lemma {:induction false} PushLaid(s: seq<Tile>, g: Streams, cs: seq<nat>)
    requires FramesFit(s, cs)
    requires 0 <= g.cur && |g.even| == 64 * (g.cur + 1) && |g.odd| == 64 * (g.cur + 1)
    ensures PushChildren(s, g, cs).Ok?
    ensures var h := PushChildren(s, g, cs).value;
      h.cur == g.cur + |cs| && |h.even| == 64 * (h.cur + 1) && |h.odd| == 64 * (h.cur + 1)
      && g.even <= h.even && g.odd <= h.odd
    decreases |cs|
  {
    if cs != [] {
      var init := cs[..|cs| - 1];
      var k := cs[|cs| - 1];
      assert FramesFit(s, init) by {
        assert forall c :: 0 <= c < |init| ==> init[c] == cs[c];
      }
      PushLaid(s, g, init);
      var f := PushChildren(s, g, init).value;
      var d := s[k].cromBinaryData.value;
      var h := Streams(f.even + d.cEvenData, f.odd + d.cOddData, f.cur + 1);
      assert PushChildren(s, g, cs) == Ok(h);
    }
  }

  /** Frame `c` of the frame loop lands in the slot `c + 1` past the cursor. */
  lemma {:induction false} PushFrames(s: seq<Tile>, g: Streams, cs: seq<nat>)
    requires FramesFit(s, cs)
    requires 0 <= g.cur && |g.even| == 64 * (g.cur + 1) && |g.odd| == 64 * (g.cur + 1)
    ensures PushChildren(s, g, cs).Ok? && FramesAt(s, PushChildren(s, g, cs).value, g.cur + 1, cs)
    decreases |cs|
  {
    if cs != [] {
      var init := cs[..|cs| - 1];
      var k := cs[|cs| - 1];
      assert FramesFit(s, init) && Present(s, k) && Sized(s[k].cromBinaryData.value) by {
        assert forall c :: 0 <= c < |init| ==> init[c] == cs[c];
      }
      PushFrames(s, g, init);
      PushLaid(s, g, init);
      PushChildrenLast(s, g, cs);
      FrameLast(s, PushChildren(s, g, init).value, g.cur + 1, cs);
    }
  }

  /** The frame loop over `cs` is the loop over all but its last frame, then that frame. */
  lemma {:induction false} PushChildrenLast(s: seq<Tile>, g: Streams, cs: seq<nat>)
    requires cs != [] && Present(s, cs[|cs| - 1]) && PushChildren(s, g, cs[..|cs| - 1]).Ok?
    ensures var f := PushChildren(s, g, cs[..|cs| - 1]).value;
            var d := s[cs[|cs| - 1]].cromBinaryData.value;
            PushChildren(s, g, cs) == Ok(Streams(f.even + d.cEvenData, f.odd + d.cOddData, f.cur + 1))
  {
  }

  /**
   * Pushing the last frame of `cs` onto streams that hold the others from
   * slot `base`: those stay and the last one lands next.
   */
  lemma {:induction false} FrameLast(s: seq<Tile>, f: Streams, base: int, cs: seq<nat>)
    requires cs != [] && Present(s, cs[|cs| - 1]) && Sized(s[cs[|cs| - 1]].cromBinaryData.value) && 0 <= base
    requires |f.even| == 64 * (base + |cs| - 1) && |f.odd| == 64 * (base + |cs| - 1)
    requires FramesAt(s, f, base, cs[..|cs| - 1])
    ensures var d := s[cs[|cs| - 1]].cromBinaryData.value;
            FramesAt(s, Streams(f.even + d.cEvenData, f.odd + d.cOddData, f.cur + 1), base, cs)
  {
    var init := cs[..|cs| - 1];
    var d := s[cs[|cs| - 1]].cromBinaryData.value;
    var h := Streams(f.even + d.cEvenData, f.odd + d.cOddData, f.cur + 1);
    PushBlock(f, base + |init|, d);
    forall c | 0 <= c < |cs| ensures BlockIs(h, base + c, ChildData(s, cs[c])) {
      if c < |init| {
        assert init[c] == cs[c];
        BlockKept(f, h, base + c, ChildData(s, init[c]));
      } else {
        assert h.even == Push(f, d).even && h.odd == Push(f, d).odd;
      }
    }
  }

  /**
   * Whether or not runs overlap, both streams grow by 64 bytes per slot
   * the cursor passes, so they always have equal lengths.
   */
  lemma {:induction false} WalkGrows(s: seq<Tile>, ts: seq<Tile>)
    requires Fits(s, ts)
    ensures Walk(s, ts).Ok?
    ensures var e := Walk(s, ts).value; 0 <= e.cur && |e.even| == 64 * e.cur && |e.odd| == 64 * e.cur
    decreases |ts|
  {
    if ts != [] {
      var init := ts[..|ts| - 1];
      var t := ts[|ts| - 1];
      assert ts == init + [t];
      FitsInit(s, init, t);
      WalkGrows(s, init);
      var e := Walk(s, init).value;
      if !Skipped(t) {
        var f := Fill(e, Slot(t));
        assert |f.even| == 64 * f.cur && |f.odd| == 64 * f.cur;
        PushLaid(s, Push(f, t.cromBinaryData.value), Children(t));
      }
    }
  }

  /** The two streams `emitCromBinaries` returns have equal lengths, a whole number of tiles. */
  lemma {:induction false} EqualStreams(s: seq<Tile>)
    requires Fits(s, s)
    ensures EmitCrom(s).Ok?
    ensures var d := EmitCrom(s).value;
      |d.cEvenData| == |d.cOddData| && |d.cEvenData| % CROM_STREAM_BYTES == 0
  {
    var ts := SortByKey(s, CromKey);
    assert Fits(s, ts) by {
      forall t | t in ts && !Skipped(t) ensures FitsTile(s, t) {
        assert t in multiset(ts);
      }
    }
    WalkGrows(s, ts);
  }

  /**
   * Nothing checks for a taken slot: a second master claiming slot `m`
   * is appended after the first, in slot `m + 1`.
   */
  lemma {:induction false} CollisionAppended(a: Tile, b: Tile, m: nat)
    requires !Skipped(a) && !Skipped(b) && a.cromIndex == Some(m) && b.cromIndex == Some(m)
    requires Children(a) == [] && Children(b) == []
    requires a.cromBinaryData.Some? && b.cromBinaryData.Some?
    ensures var da, db := a.cromBinaryData.value, b.cromBinaryData.value;
      EmitCrom([a, b]) == Ok(CromData(Zeros(64 * m) + da.cEvenData + db.cEvenData,
                                      Zeros(64 * m) + da.cOddData + db.cOddData))
  {
    var s := [a, b];
    var da, db := a.cromBinaryData.value, b.cromBinaryData.value;
    assert s[..1] == [a];
    assert [a][..0] == [];
    assert SortByKey([a], CromKey) == [a];
    assert Insert(b, [a], CromKey) == [a] + Insert(b, [], CromKey);
    assert SortByKey(s, CromKey) == s;
    var e1 := Streams(Zeros(64 * m) + da.cEvenData, Zeros(64 * m) + da.cOddData, m + 1);
    assert Walk(s, [a]) == Ok(e1) by {
      assert Walk(s, []) == Ok(Streams([], [], 0));
      assert [] + Zeros(64 * m) == Zeros(64 * m);
      assert Fill(Streams([], [], 0), m) == Streams(Zeros(64 * m), Zeros(64 * m), m);
    }
    assert Fill(e1, m) == e1 by {
      assert e1.even + Zeros(0) == e1.even && e1.odd + Zeros(0) == e1.odd;
    }
  }

  /** A master, or one of its frames, without a payload makes the emitter throw. */
  lemma {:induction false} MissingPayloadThrows(s: seq<Tile>, t: Tile)
    requires t in s && !Skipped(t)
    requires t.cromBinaryData.None? || exists c :: 0 <= c < |Children(t)| && !Present(s, Children(t)[c])
    ensures EmitCrom(s) == Err(MissingBinaryData)
  {
    var ts := SortByKey(s, CromKey);
    assert t in multiset(s);
    var k :| 0 <= k < |ts| && ts[k] == t;
    WalkThrow(s, ts, k);
  }

  lemma {:induction false} WalkThrow(s: seq<Tile>, ts: seq<Tile>, k: int)
    requires 0 <= k < |ts| && !Skipped(ts[k])
    requires ts[k].cromBinaryData.None? || exists c :: 0 <= c < |Children(ts[k])| && !Present(s, Children(ts[k])[c])
    ensures Walk(s, ts) == Err(MissingBinaryData)
    decreases |ts|
  {
    var init := ts[..|ts| - 1];
    if k < |ts| - 1 {
      assert init[k] == ts[k];
      WalkThrow(s, init, k);
    } else if Walk(s, init).Err? {
      WalkThrown(s, init);
    } else if ts[k].cromBinaryData.Some? {
      var t := ts[k];
      var c :| 0 <= c < |Children(t)| && !Present(s, Children(t)[c]);
      var e := Walk(s, init).value;
      PushThrow(s, Push(Fill(e, t.cromIndex.value), t.cromBinaryData.value), Children(t), c);
    }
  }

  lemma {:induction false} PushThrow(s: seq<Tile>, g: Streams, cs: seq<nat>, c: int)
    requires 0 <= c < |cs| && !Present(s, cs[c])
    ensures PushChildren(s, g, cs) == Err(MissingBinaryData)
    decreases |cs|
  {
    var init := cs[..|cs| - 1];
    if c < |cs| - 1 {
      assert init[c] == cs[c];
      PushThrow(s, g, init, c);
    } else if PushChildren(s, g, init).Err? {
      PushThrown(s, g, init);
    }
  }
}
