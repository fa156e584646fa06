/**
 * `positionCroms`: gives every sprite tile that needs one a slot in the
 * C ROM. Auto-animation masters with 7 child frames need a slot that is a
 * multiple of 8, masters with 3 child frames a multiple of 4, and their
 * children follow them in consecutive slots; every other unplaced tile can
 * go anywhere.
 *
 * A run is described by its placement log: the groups (a master and its
 * children, or a single tile) in the order the allocator places them,
 * each with its first slot. The arena after the run is the log applied to
 * the arena before it.
 */
module CromPositions {
  import opened Wrappers
  import opened Tiles
  import opened Seqs

  /** The `canGoAnywhere` filter. */
  predicate CanGoAnywhere(t: Tile) {
    t.cromIndex.None? && t.childAnimationFrames.None? && t.duplicateOf.None? && t.childOf.None?
  }

  /** The three lists the allocator draws from. */
  datatype Kind = Anywhere | OnFours | OnEights

  /** The filter that builds list `k`; the master lists only look at the number of children. */
  predicate IsKind(t: Tile, k: Kind) {
    match k
    case Anywhere => CanGoAnywhere(t)
    case OnFours => t.childAnimationFrames.Some? && |t.childAnimationFrames.value| == 3
    case OnEights => t.childAnimationFrames.Some? && |t.childAnimationFrames.value| == 7
  }

  /** `allTiles.filter(...)`: the tiles of `all` that belong in list `k`, in order. */
  function Select(a: seq<Tile>, all: seq<nat>, k: Kind): (r: seq<nat>)
    requires forall i :: 0 <= i < |all| ==> all[i] < |a|
    ensures forall i :: 0 <= i < |r| ==> r[i] < |a| && IsKind(a[r[i]], k)
    ensures forall i :: 0 <= i < |all| && IsKind(a[all[i]], k) ==> all[i] in r
    ensures forall x :: x in r ==> x in all
  {
    if all == [] then []
    else
      var n := |all| - 1;
      var init := Select(a, all[..n], k);
      assert forall x :: x in all[..n] ==> x in all;
      if IsKind(a[all[n]], k) then init + [all[n]] else init
  }

  /** `allIndicesSoFar`: the preset slots, in tile order. */
  function PresetIndices(a: seq<Tile>, all: seq<nat>): (r: seq<int>)
    requires forall i :: 0 <= i < |all| ==> all[i] < |a|
    ensures forall i :: 0 <= i < |all| && a[all[i]].cromIndex.Some? ==> a[all[i]].cromIndex.value in r
    ensures forall v :: v in r ==> exists i :: 0 <= i < |all| && a[all[i]].cromIndex == Some(v)
  {
    if all == [] then []
    else
      var n := |all| - 1;
      var init := PresetIndices(a, all[..n]);
      assert forall i :: 0 <= i < n ==> all[..n][i] == all[i];
      if a[all[n]].cromIndex.Some? then init + [a[all[n]].cromIndex.value] else init
  }

  /**
   * The first slot the allocator hands out: one past the largest preset
   * slot, or 0 when nothing is preset. The sort that precedes it in the
   * source only reorders `allIndicesSoFar`, which the maximum ignores.
   */
  function StartIndex(a: seq<Tile>, all: seq<nat>): (r: int)
    requires forall i :: 0 <= i < |all| ==> all[i] < |a|
    ensures forall i :: 0 <= i < |all| && a[all[i]].cromIndex.Some? ==> a[all[i]].cromIndex.value < r
    ensures (forall i :: 0 <= i < |all| ==> a[all[i]].cromIndex.None?) ==> r == 0
    ensures r != 0 ==> exists i :: 0 <= i < |all| && a[all[i]].cromIndex == Some(r - 1)
  {
    var presets := PresetIndices(a, all);
    if presets == [] then 0 else Max(presets) + 1
  }

  /** The child frames of a master, as arena indices (none for any other tile). */
  function Children(a: seq<Tile>, m: nat): seq<nat> {
    if m < |a| && a[m].childAnimationFrames.Some? then a[m].childAnimationFrames.value else []
  }

  /** One group placed: `tile` at `slot`, its `children` right after it. */
  datatype Placed = Placed(tile: nat, children: seq<nat>, slot: int)

  /** The cursor after placing `p`. */
  function End(p: Placed): int {
    p.slot + 1 + |p.children|
  }

  /** `ts[k].cromIndex = slot + k` for each `k` in turn. */
  function SetSlots(a: seq<Tile>, ts: seq<nat>, slot: int): (r: seq<Tile>)
    ensures |r| == |a|
  {
    if ts == [] then a
    else
      var n := |ts| - 1;
      var b := SetSlots(a, ts[..n], slot);
      if ts[n] < |b| then b[ts[n] := b[ts[n]].(cromIndex := Some(slot + n))] else b
  }

  /** The tiles of one group in slot order: the master, then each child. */
  function Group(p: Placed): seq<nat> {
    [p.tile] + p.children
  }

  /** The writes of one placed group. */
  function ApplyGroup(a: seq<Tile>, p: Placed): (r: seq<Tile>)
    ensures |r| == |a|
  {
    SetSlots(a, Group(p), p.slot)
  }

  /** The arena after the groups of `log` are placed in order. */
  function Apply(a: seq<Tile>, log: seq<Placed>): (r: seq<Tile>)
    ensures |r| == |a|
  {
    if log == [] then a else ApplyGroup(Apply(a, log[..|log| - 1]), log[|log| - 1])
  }

  /** The three lists. */
  datatype Queues = Queues(free: seq<nat>, fours: seq<nat>, eights: seq<nat>)

  function Size(q: Queues): nat {
    |q.free| + |q.fours| + |q.eights|
  }

  /** Every listed tile is an arena tile. */
  predicate QueuesIn(q: Queues, n: nat) {
    (forall i :: 0 <= i < |q.free| ==> q.free[i] < n)
    && (forall i :: 0 <= i < |q.fours| ==> q.fours[i] < n)
    && (forall i :: 0 <= i < |q.eights| ==> q.eights[i] < n)
  }

  /** Every tile of `list` is an arena tile with child frames. */
  predicate MastersIn(a: seq<Tile>, list: seq<nat>) {
    forall i :: 0 <= i < |list| ==> list[i] < |a| && a[list[i]].childAnimationFrames.Some?
  }

  /** The lists as the main loop needs them. */
  predicate Ready(a: seq<Tile>, q: Queues) {
    QueuesIn(q, |a|) && MastersIn(a, q.fours) && MastersIn(a, q.eights)
  }

  /** The lists as the allocator first builds them. */
  function InitialQueues(a: seq<Tile>, all: seq<nat>): (q: Queues)
    requires forall i :: 0 <= i < |all| ==> all[i] < |a|
    ensures QueuesIn(q, |a|)
  {
    Queues(Select(a, all, Anywhere), Select(a, all, OnFours), Select(a, all, OnEights))
  }

  /** The log of a phase: its groups and where it leaves the lists and the cursor. */
  datatype Walk = Walk(log: seq<Placed>, rest: Queues, cur: int)

  /**
   * One pass of the newer loop body, while free tiles remain: an 8-master
   * from the front of its list on a multiple of 8, else a 4-master from
   * the front of its list on a multiple of 4, else the next free tile.
   */
  function FifoPick(a: seq<Tile>, q: Queues, cur: int): (r: (Placed, Queues))
    requires q.free != []
    ensures Size(r.1) == Size(q) - 1
  {
    if cur % 8 == 0 && q.eights != [] then
      (Placed(q.eights[0], Children(a, q.eights[0]), cur), q.(eights := q.eights[1..]))
    else if cur % 4 == 0 && q.fours != [] then
      (Placed(q.fours[0], Children(a, q.fours[0]), cur), q.(fours := q.fours[1..]))
    else
      (Placed(q.free[0], [], cur), q.(free := q.free[1..]))
  }

  /** The newer main loop: passes until the free tiles run out. */
  function Fifo(a: seq<Tile>, q: Queues, cur: int): (w: Walk)
    decreases Size(q)
  {
    if q.free == [] then Walk([], q, cur)
    else
      var (p, q') := FifoPick(a, q, cur);
      var w := Fifo(a, q', End(p));
      Walk([p] + w.log, w.rest, w.cur)
  }

  /** A flush loop: the rest of a list, taken from the back, from `cur` on. */
  function Flush(a: seq<Tile>, list: seq<nat>, cur: int): (r: Walk)
    ensures r.rest == Queues([], [], [])
  {
    if list == [] then Walk([], Queues([], [], []), cur)
    else
      var m := list[|list| - 1];
      var p := Placed(m, Children(a, m), cur);
      var r := Flush(a, list[..|list| - 1], End(p));
      Walk([p] + r.log, r.rest, r.cur)
  }

  /** The `while (curIndex % 8 !== 0)` loop: the next multiple of 8. */
  function RoundUp8(c: int): (r: int)
    ensures r % 8 == 0 && c <= r < c + 8
  {
    c + (8 - c % 8) % 8
  }

  /** The whole newer run: main loop, round-up, 8-masters, then 4-masters. */
  function PositionLog(a: seq<Tile>, all: seq<nat>): seq<Placed>
    requires forall i :: 0 <= i < |all| ==> all[i] < |a|
  {
    var w := Fifo(a, InitialQueues(a, all), StartIndex(a, all));
    var r8 := Flush(a, w.rest.eights, RoundUp8(w.cur));
    var r4 := Flush(a, w.rest.fours, r8.cur);
    w.log + r8.log + r4.log
  }

  lemma {:induction false} RoundUpStep(c: int)
    requires c % 8 != 0
    ensures RoundUp8(c + 1) == RoundUp8(c)
  {
    var q, r := c / 8, c % 8;
    assert c == 8 * q + r && 0 < r < 8;
    if r == 7 {
      assert (c + 1) % 8 == 0;
    } else {
      assert (c + 1) % 8 == r + 1;
    }
  }

  lemma {:induction false} RoundUpAligned(c: int)
    requires c % 8 == 0
    ensures RoundUp8(c) == c
  {
  }

  /** One pass of the main loop, unfolded. */
  lemma {:induction false} FifoStep(a: seq<Tile>, q: Queues, cur: int)
    requires q.free != []
    ensures var pick := FifoPick(a, q, cur);
            var later := Fifo(a, pick.1, End(pick.0));
            Fifo(a, q, cur) == Walk([pick.0] + later.log, later.rest, later.cur)
  {
  }

  lemma {:induction false} AppendAssoc<T>(x: seq<T>, y: seq<T>, z: seq<T>)
    ensures x + y + z == x + (y + z)
  {
  }

  /** `PositionLog` from its three phases. */
  lemma {:induction false} PositionLogPhases(a: seq<Tile>, all: seq<nat>, w: Walk, r8: Walk, r4: Walk)
    requires forall i :: 0 <= i < |all| ==> all[i] < |a|
    requires w == Fifo(a, InitialQueues(a, all), StartIndex(a, all))
    requires r8 == Flush(a, w.rest.eights, RoundUp8(w.cur)) && r4 == Flush(a, w.rest.fours, r8.cur)
    ensures PositionLog(a, all) == w.log + r8.log + r4.log
  {
  }

  /** Placing a group touches nothing but `cromIndex`. */
  lemma {:induction false} SetSlotsAt(a: seq<Tile>, ts: seq<nat>, slot: int, j: nat)
    requires j < |a|
    ensures SetSlots(a, ts, slot)[j] == a[j].(cromIndex := SetSlots(a, ts, slot)[j].cromIndex)
    ensures j !in ts ==> SetSlots(a, ts, slot)[j] == a[j]
  {
    if ts != [] {
      SetSlotsAt(a, ts[..|ts| - 1], slot, j);
      assert j !in ts ==> j !in ts[..|ts| - 1];
    }
  }

  /** A run touches nothing but `cromIndex`. */
  lemma {:induction false} ApplyAt(a: seq<Tile>, log: seq<Placed>, j: nat)
    requires j < |a|
    ensures Apply(a, log)[j] == a[j].(cromIndex := Apply(a, log)[j].cromIndex)
  {
    if log != [] {
      var b := Apply(a, log[..|log| - 1]);
      ApplyAt(a, log[..|log| - 1], j);
      SetSlotsAt(b, Group(log[|log| - 1]), log[|log| - 1].slot, j);
    }
  }

  /** The children of a master are the same before and after any run. */
  lemma {:induction false} ApplyKeepsChildren(a: seq<Tile>, log: seq<Placed>, m: nat)
    ensures Children(Apply(a, log), m) == Children(a, m)
  {
    if m < |a| {
      ApplyAt(a, log, m);
    }
  }

  /** Placing the groups of `x` and then those of `y` is placing `x + y`. */
  lemma {:induction false} ApplyAppend(a: seq<Tile>, x: seq<Placed>, y: seq<Placed>)
    ensures Apply(a, x + y) == Apply(Apply(a, x), y)
  {
    if y == [] {
      assert x + y == x;
    } else {
      ApplyAppend(a, x, y[..|y| - 1]);
      assert (x + y)[..|x + y| - 1] == x + y[..|y| - 1];
    }
  }

  lemma {:induction false} ApplySnoc(a: seq<Tile>, x: seq<Placed>, p: Placed)
    ensures Apply(a, x + [p]) == ApplyGroup(Apply(a, x), p)
  {
    assert (x + [p])[..|x|] == x;
  }

  /** The children of an arena tile are arena tiles. */
  lemma {:induction false} ChildrenIn(a: seq<Tile>, m: nat)
    requires ArenaValid(a)
    ensures forall c :: 0 <= c < |Children(a, m)| ==> Children(a, m)[c] < |a|
  {
    if m < |a| {
      assert RefsIn(a[m], |a|);
    }
  }

  /** Placing a single tile is one write. */
  lemma {:induction false} PlaceOne(b: seq<Tile>, t: nat, cur: int)
    requires t < |b|
    ensures ApplyGroup(b, Placed(t, [], cur)) == b[t := b[t].(cromIndex := Some(cur))]
  {
    assert [t] + [] == [t] && [t][..0] == [];
    assert SetSlots(b, [], cur) == b;
  }

  /** What `PlaceGroup` needs of a master, after any earlier placements. */
  lemma {:induction false} MasterReady(a: seq<Tile>, done: seq<Placed>, m: nat)
    requires ArenaValid(a) && m < |a| && a[m].childAnimationFrames.Some?
    ensures Apply(a, done)[m].childAnimationFrames == a[m].childAnimationFrames
    ensures forall c :: 0 <= c < |a[m].childAnimationFrames.value| ==> a[m].childAnimationFrames.value[c] < |a|
    ensures Children(Apply(a, done), m) == Children(a, m)
  {
    ApplyAt(a, done, m);
    assert RefsIn(a[m], |a|);
  }

  /**
   * Places master `m` at `cur` and its children after it, in order;
   * returns the cursor past the group. `a` is the arena before the run
   * and `done` the groups placed so far.
   */
  method PlaceGroup(tiles: array<Tile>, m: nat, cur: int, ghost a: seq<Tile>, ghost done: seq<Placed>)
    returns (next: int)
    requires tiles[..] == Apply(a, done) && ArenaValid(a)
    requires m < |a| && a[m].childAnimationFrames.Some?
    modifies tiles
    ensures next == End(Placed(m, Children(a, m), cur))
    ensures tiles[..] == Apply(a, done + [Placed(m, Children(a, m), cur)])
  {
    MasterReady(a, done, m);
    ghost var b := tiles[..];
    var children := tiles[m].childAnimationFrames.value;
    tiles[m] := tiles[m].(cromIndex := Some(cur));
    assert [m][..0] == [];
    assert tiles[..] == SetSlots(b, [m], cur);
    next := PlaceChildren(tiles, m, children, cur, b);
    ApplySnoc(a, done, Placed(m, Children(a, m), cur));
  }

  /** The inner loop of a placement: child `c` goes to the slot `c + 1` past the master's. */
  method PlaceChildren(tiles: array<Tile>, m: nat, children: seq<nat>, cur: int, ghost b: seq<Tile>)
    returns (next: int)
    requires tiles[..] == SetSlots(b, [m], cur)
    requires forall c :: 0 <= c < |children| ==> children[c] < tiles.Length
    modifies tiles
    ensures next == cur + 1 + |children|
    ensures tiles[..] == SetSlots(b, [m] + children, cur)
  {
    ghost var ts := [m] + children;
    assert ts[..1] == [m];
    next := cur + 1;
    for c := 0 to |children|
      invariant next == cur + 1 + c
      invariant tiles[..] == SetSlots(b, ts[..c + 1], cur)
    {
      assert ts[..c + 2][..c + 1] == ts[..c + 1] && ts[c + 1] == children[c];
      tiles[children[c]] := tiles[children[c]].(cromIndex := Some(next));
      next := next + 1;
    }
    assert ts[..|children| + 1] == ts;
  }

  /**
   * A flush loop: takes masters from the back of `list` until it is empty.
   * `a` is the arena before the run and `done` the groups placed so far.
   */
  method FlushLifo(tiles: array<Tile>, list: seq<nat>, cur: int, ghost a: seq<Tile>, ghost done: seq<Placed>)
    returns (next: int)
    requires tiles[..] == Apply(a, done) && ArenaValid(a)
    requires MastersIn(a, list)
    modifies tiles
    ensures tiles[..] == Apply(a, done + Flush(a, list, cur).log)
    ensures next == Flush(a, list, cur).cur
  {
    var rest: seq<nat> := list;
    next := cur;
    ghost var placed := done;
    while |rest| > 0
      invariant MastersIn(a, rest)
      invariant tiles[..] == Apply(a, placed)
      invariant placed + Flush(a, rest, next).log == done + Flush(a, list, cur).log
      invariant Flush(a, rest, next).cur == Flush(a, list, cur).cur
    {
      var m := rest[|rest| - 1];
      ghost var p := Placed(m, Children(a, m), next);
      ghost var later := Flush(a, rest[..|rest| - 1], End(p));
      assert Flush(a, rest, next).log == [p] + later.log;
      assert Flush(a, rest, next).cur == later.cur;
      rest := rest[..|rest| - 1];
      next := PlaceGroup(tiles, m, next, a, placed);
      assert placed + [p] + later.log == placed + ([p] + later.log);
      placed := placed + [p];
    }
    assert placed + [] == placed;
  }

  /** One pass of the newer main loop's body. */
  method FifoPass(tiles: array<Tile>, free0: seq<nat>, fours0: seq<nat>, eights0: seq<nat>, cur0: int,
                  ghost a: seq<Tile>, ghost done: seq<Placed>)
    returns (free: seq<nat>, fours: seq<nat>, eights: seq<nat>, cur: int)
    requires tiles[..] == Apply(a, done) && ArenaValid(a) && free0 != []
    requires Ready(a, Queues(free0, fours0, eights0))
    modifies tiles
    ensures var pick := FifoPick(a, Queues(free0, fours0, eights0), cur0);
            Queues(free, fours, eights) == pick.1 && cur == End(pick.0)
            && tiles[..] == Apply(a, done + [pick.0])
    ensures Ready(a, Queues(free, fours, eights))
  {
    free, fours, eights, cur := free0, fours0, eights0, cur0;
    ghost var p := FifoPick(a, Queues(free0, fours0, eights0), cur0).0;
    if cur % 8 == 0 && |eights| > 0 {
      var m := eights[0];
      eights := eights[1..];
      cur := PlaceGroup(tiles, m, cur, a, done);
    } else if cur % 4 == 0 && |fours| > 0 {
      var m := fours[0];
      fours := fours[1..];
      cur := PlaceGroup(tiles, m, cur, a, done);
    } else {
      // the source's `else if (canGoAnywhere.length > 0)` always holds here
      var t := free[0];
      free := free[1..];
      PlaceOne(tiles[..], t, cur);
      tiles[t] := tiles[t].(cromIndex := Some(cur));
      cur := cur + 1;
      ApplySnoc(a, done, p);
    }
  }

  /**
   * The newer main loop, from lists `q` and cursor `cur`, until the free
   * tiles run out; returns what is left of the master lists and the cursor.
   */
  method FifoLoop(tiles: array<Tile>, q: Queues, cur0: int, ghost a: seq<Tile>)
    returns (fours: seq<nat>, eights: seq<nat>, cur: int)
    requires tiles[..] == a && ArenaValid(a) && Ready(a, q)
    modifies tiles
    ensures tiles[..] == Apply(a, Fifo(a, q, cur0).log)
    ensures Fifo(a, q, cur0).rest == Queues([], fours, eights) && Fifo(a, q, cur0).cur == cur
    ensures MastersIn(a, fours) && MastersIn(a, eights)
  {
    var free := q.free;
    fours, eights, cur := q.fours, q.eights, cur0;
    ghost var w := Fifo(a, q, cur0);
    ghost var done: seq<Placed> := [];
    ghost var pending := w;
    while |free| > 0
      invariant Ready(a, Queues(free, fours, eights))
      invariant tiles[..] == Apply(a, done)
      invariant pending == Fifo(a, Queues(free, fours, eights), cur)
      invariant done + pending.log == w.log && pending.rest == w.rest && pending.cur == w.cur
      decreases |free| + |fours| + |eights|
    {
      ghost var pick := FifoPick(a, Queues(free, fours, eights), cur);
      ghost var later := Fifo(a, pick.1, End(pick.0));
      FifoStep(a, Queues(free, fours, eights), cur);
      free, fours, eights, cur := FifoPass(tiles, free, fours, eights, cur, a, done);
      AppendAssoc(done, [pick.0], later.log);
      done := done + [pick.0];
      pending := later;
    }
    assert done + [] == done;
  }

  /**
   * `positionCroms`, once the generators have set their own slots:
   * `images` holds every generator's tile matrices, in order.
   */
  method PositionCroms(images: seq<Matrix>, tiles: array<Tile>)
    requires CellsIn(images, tiles.Length) && ArenaValid(tiles[..])
    modifies tiles
    ensures forall k :: 0 <= k < |Visits(images)| ==> Visits(images)[k] < tiles.Length
    ensures tiles[..] == Apply(old(tiles[..]), PositionLog(old(tiles[..]), Visits(images)))
  {
    ghost var a := tiles[..];
    var all := Visits(images);
    VisitsIn(images, tiles.Length);
    var free := Select(tiles[..], all, Anywhere);
    var fours := Select(tiles[..], all, OnFours);
    var eights := Select(tiles[..], all, OnEights);
    var cur := StartIndex(tiles[..], all);
    assert Queues(free, fours, eights) == InitialQueues(a, all) && cur == StartIndex(a, all);
    assert Ready(a, Queues(free, fours, eights));
    ghost var w := Fifo(a, Queues(free, fours, eights), cur);
    fours, eights, cur := FifoLoop(tiles, Queues(free, fours, eights), cur, a);
    ghost var done := w.log;
    var target := RoundUp8(cur);
    while cur % 8 != 0
      invariant cur <= target && RoundUp8(cur) == target
      invariant tiles[..] == Apply(a, done)
      decreases target - cur
    {
      RoundUpStep(cur);
      cur := cur + 1;
    }
    RoundUpAligned(cur);
    ghost var r8 := Flush(a, eights, cur);
    cur := FlushLifo(tiles, eights, cur, a, done);
    ghost var r4 := Flush(a, fours, cur);
    cur := FlushLifo(tiles, fours, cur, a, done + r8.log);
    PositionLogPhases(a, all, w, r8, r4);
  }
}
