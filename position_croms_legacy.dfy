/**
 * The older `positionCroms`: the same lists and start cursor as the newer
 * allocator, but one loop that runs until all three lists are empty and
 * takes every tile from the back of its list (`pop`).
 *
 * The loop can get stuck: once the free tiles are gone and the cursor is
 * aligned for none of the remaining masters, no branch of its body fires
 * and nothing changes, so it spins forever. The model stops there and
 * reports `NeverTerminates`.
 */
module CromPositionsLegacy {
  import opened Wrappers
  import opened Tiles
  import opened Seqs
  import opened CromPositions
  import opened CromPositionFacts

  /**
   * One pass of the older loop body: an 8-master from the back of its list
   * on a multiple of 8, else a 4-master from the back of its list on a
   * multiple of 4, else the last free tile; `None` when no branch fires.
   */
  function LegacyPick(a: seq<Tile>, q: Queues, cur: int): (r: Option<(Placed, Queues)>)
    ensures r.None? <==> q.free == [] && !(cur % 8 == 0 && q.eights != []) && !(cur % 4 == 0 && q.fours != [])
    ensures r.Some? ==> Size(r.value.1) == Size(q) - 1
  {
    if cur % 8 == 0 && q.eights != [] then
      var m := q.eights[|q.eights| - 1];
      Some((Placed(m, Children(a, m), cur), q.(eights := q.eights[..|q.eights| - 1])))
    else if cur % 4 == 0 && q.fours != [] then
      var m := q.fours[|q.fours| - 1];
      Some((Placed(m, Children(a, m), cur), q.(fours := q.fours[..|q.fours| - 1])))
    else if q.free != [] then
      Some((Placed(q.free[|q.free| - 1], [], cur), q.(free := q.free[..|q.free| - 1])))
    else None
  }

  /**
   * The older loop, until the lists are empty or no branch fires; `rest`
   * is what is left when it stops.
   */
  function LegacyWalk(a: seq<Tile>, q: Queues, cur: int): (w: Walk)
    decreases Size(q)
  {
    if Size(q) == 0 then Walk([], q, cur)
    else
      match LegacyPick(a, q, cur)
      case None => Walk([], q, cur)
      case Some((p, q')) =>
        var w := LegacyWalk(a, q', End(p));
        Walk([p] + w.log, w.rest, w.cur)
  }

  /**
   * The whole older run: its placement log, or `NeverTerminates` when the
   * loop gets stuck. When it does finish every list is empty, so the
   * `canGoAnywhere` check cannot throw, the two flush loops place nothing
   * and the round-up only moves a cursor nobody reads.
   */
  function LegacyRun(a: seq<Tile>, all: seq<nat>): (r: Result<seq<Placed>>)
    requires forall i :: 0 <= i < |all| ==> all[i] < |a|
  {
    var w := LegacyWalk(a, InitialQueues(a, all), StartIndex(a, all));
    if Size(w.rest) > 0 then Err(NeverTerminates) else Ok(w.log)
  }

  lemma {:induction false} LegacyStep(a: seq<Tile>, q: Queues, cur: int)
    requires Size(q) > 0 && LegacyPick(a, q, cur).Some?
    ensures var pick := LegacyPick(a, q, cur).value;
            var later := LegacyWalk(a, pick.1, End(pick.0));
            LegacyWalk(a, q, cur) == Walk([pick.0] + later.log, later.rest, later.cur)
  {
  }

  /** The loop stops only with empty lists or in the stuck state. */
  lemma {:induction false} LegacyStops(a: seq<Tile>, q: Queues, cur: int)
    ensures var w := LegacyWalk(a, q, cur);
            Size(w.rest) == 0 || LegacyPick(a, w.rest, w.cur).None?
    decreases Size(q)
  {
    if Size(q) > 0 && LegacyPick(a, q, cur).Some? {
      var pick := LegacyPick(a, q, cur).value;
      LegacyStops(a, pick.1, End(pick.0));
      LegacyStep(a, q, cur);
    }
  }

  lemma {:induction false} LegacyChain(a: seq<Tile>, q: Queues, cur: int)
    ensures Chain(LegacyWalk(a, q, cur).log, cur, LegacyWalk(a, q, cur).cur)
    decreases Size(q)
  {
    if Size(q) > 0 && LegacyPick(a, q, cur).Some? {
      var pick := LegacyPick(a, q, cur).value;
      LegacyChain(a, pick.1, End(pick.0));
      LegacyStep(a, q, cur);
      assert LegacyWalk(a, q, cur).log[1..] == LegacyWalk(a, pick.1, End(pick.0)).log;
    }
  }

  lemma {:induction false} PickKinds(a: seq<Tile>, q: Queues, cur: int)
    requires Kinds(a, q) && LegacyPick(a, q, cur).Some?
    ensures Kinds(a, LegacyPick(a, q, cur).value.1)
    ensures var p := LegacyPick(a, q, cur).value.0;
            (|p.children| == 7 ==> p.slot % 8 == 0) && (|p.children| == 3 ==> p.slot % 4 == 0)
            && p.children == Children(a, p.tile) && p.slot == cur
  {
    if !(cur % 8 == 0 && q.eights != []) && !(cur % 4 == 0 && q.fours != []) {
      assert IsKind(a[q.free[|q.free| - 1]], Anywhere);
    }
  }

  lemma {:induction false} LegacyShape(a: seq<Tile>, q: Queues, cur: int)
    requires Kinds(a, q)
    ensures Aligned(LegacyWalk(a, q, cur).log) && OwnChildren(a, LegacyWalk(a, q, cur).log)
    decreases Size(q)
  {
    if Size(q) > 0 && LegacyPick(a, q, cur).Some? {
      var pick := LegacyPick(a, q, cur).value;
      var later := LegacyWalk(a, pick.1, End(pick.0));
      PickKinds(a, q, cur);
      LegacyShape(a, pick.1, End(pick.0));
      LegacyStep(a, q, cur);
      var log := LegacyWalk(a, q, cur).log;
      forall i | 0 <= i < |log|
        ensures (|log[i].children| == 7 ==> log[i].slot % 8 == 0) && (|log[i].children| == 3 ==> log[i].slot % 4 == 0)
        ensures log[i].children == Children(a, log[i].tile)
      {
        if i > 0 {
          assert log[i] == later.log[i - 1];
        }
      }
    }
  }

  /** One pass takes one listed tile out of the lists. */
  lemma {:induction false} PickCovers(a: seq<Tile>, q: Queues, cur: int)
    requires LegacyPick(a, q, cur).Some?
    ensures Listed(q) == multiset{LegacyPick(a, q, cur).value.0.tile} + Listed(LegacyPick(a, q, cur).value.1)
  {
    if cur % 8 == 0 && q.eights != [] {
      var n := |q.eights| - 1;
      assert LegacyPick(a, q, cur).value.0.tile == q.eights[n] && LegacyPick(a, q, cur).value.1 == q.(eights := q.eights[..n]);
      TakeOut(q, Queues(q.free, q.fours, q.eights[..n]), q.eights[n]);
    } else if cur % 4 == 0 && q.fours != [] {
      var n := |q.fours| - 1;
      assert LegacyPick(a, q, cur).value.0.tile == q.fours[n] && LegacyPick(a, q, cur).value.1 == q.(fours := q.fours[..n]);
      TakeOut(q, Queues(q.free, q.fours[..n], q.eights), q.fours[n]);
    } else {
      var n := |q.free| - 1;
      assert LegacyPick(a, q, cur).value.0.tile == q.free[n] && LegacyPick(a, q, cur).value.1 == q.(free := q.free[..n]);
      TakeOut(q, Queues(q.free[..n], q.fours, q.eights), q.free[n]);
    }
  }

  lemma {:induction false} LegacyCovers(a: seq<Tile>, q: Queues, cur: int)
    ensures multiset(Masters(LegacyWalk(a, q, cur).log)) + Listed(LegacyWalk(a, q, cur).rest) == Listed(q)
    decreases Size(q)
  {
    if Size(q) > 0 && LegacyPick(a, q, cur).Some? {
      var pick := LegacyPick(a, q, cur).value;
      var later := LegacyWalk(a, pick.1, End(pick.0));
      LegacyCovers(a, pick.1, End(pick.0));
      LegacyStep(a, q, cur);
      PickCovers(a, q, cur);
      MastersCons(pick.0, later.log);
      CoverStep(Listed(q), pick.0.tile, multiset(Masters(later.log)), Listed(later.rest), Listed(pick.1));
    }
  }

  /** Without animation masters the loop always finishes, handing out the free tiles from the back. */
  lemma {:induction false} LegacyFreeOnly(a: seq<Tile>, free: seq<nat>, cur: int)
    ensures var w := LegacyWalk(a, Queues(free, [], []), cur);
            Size(w.rest) == 0 && Masters(w.log) == Reversed(free) && w.cur == cur + |free|
    decreases |free|
  {
    if free != [] {
      var q := Queues(free, [], []);
      var pick := LegacyPick(a, q, cur).value;
      var later := LegacyWalk(a, pick.1, End(pick.0));
      LegacyFreeOnly(a, free[..|free| - 1], cur + 1);
      LegacyStep(a, q, cur);
      assert Masters([pick.0] + later.log) == [pick.0.tile] + Masters(later.log);
    }
  }

  /**
   * A finished older run takes disjoint runs of slots above every preset
   * slot, keeps every master on its alignment with its own children after
   * it, and places every listed tile once per listing.
   */
  lemma {:induction false} LegacyRunFacts(a: seq<Tile>, all: seq<nat>)
    requires forall i :: 0 <= i < |all| ==> all[i] < |a|
    requires LegacyRun(a, all).Ok?
    ensures Separated(LegacyRun(a, all).value, StartIndex(a, all))
    ensures forall g, k :: 0 <= g < |LegacyRun(a, all).value| && 0 <= k < |all| && a[all[k]].cromIndex.Some? ==>
              a[all[k]].cromIndex.value < LegacyRun(a, all).value[g].slot
    ensures Aligned(LegacyRun(a, all).value) && OwnChildren(a, LegacyRun(a, all).value)
    ensures multiset(Masters(LegacyRun(a, all).value)) == Listed(InitialQueues(a, all))
  {
    var q := InitialQueues(a, all);
    var s := StartIndex(a, all);
    var w := LegacyWalk(a, q, s);
    LegacyChain(a, q, s);
    ChainSeparated(w.log, s, w.cur);
    InitialKinds(a, all);
    LegacyShape(a, q, s);
    LegacyCovers(a, q, s);
    assert Listed(w.rest) == multiset{};
  }

  /**
   * The older run fails exactly when its loop gets stuck: the free tiles
   * are gone and the cursor suits none of the masters that are left.
   */
  lemma {:induction false} LegacyFailsWhenStuck(a: seq<Tile>, all: seq<nat>)
    requires forall i :: 0 <= i < |all| ==> all[i] < |a|
    ensures var w := LegacyWalk(a, InitialQueues(a, all), StartIndex(a, all));
            LegacyRun(a, all).Err? <==>
              Size(w.rest) > 0 && w.rest.free == []
              && (w.rest.eights == [] || w.cur % 8 != 0) && (w.rest.fours == [] || w.cur % 4 != 0)
  {
    LegacyStops(a, InitialQueues(a, all), StartIndex(a, all));
  }

  // ---------------------------------------------------------------------
  // The stuck case, on a concrete arena

  /** A tile with no image and only the allocator's fields set. */
  function SlotTile(cromIndex: Option<int>, childOf: Option<nat>, frames: Option<seq<nat>>): Tile {
    Tile([], None, None, None, None, None, None, None, None, None, cromIndex, childOf, frames)
  }

  /**
   * Tile 0 is preset to slot 0, tile 1 is a master with child frames 2, 3
   * and 4, which name it as their master.
   */
  const STUCK_ARENA: seq<Tile> := [
    SlotTile(Some(0), None, None),
    SlotTile(None, None, Some([2, 3, 4])),
    SlotTile(None, Some(1), None),
    SlotTile(None, Some(1), None),
    SlotTile(None, Some(1), None)]

  const STUCK_ALL: seq<nat> := [0, 1, 2, 3, 4]

  /** On that arena the older loop starts at slot 1 with no free tile and one 4-master, so it never ends. */
  lemma {:induction false} LegacyStuckExample(a: seq<Tile>, all: seq<nat>)
    requires a == STUCK_ARENA && all == STUCK_ALL
    ensures forall i :: 0 <= i < |all| ==> all[i] < |a|
    ensures LegacyRun(a, all) == Err(NeverTerminates)
  {
    StuckLists(a, all);
    StuckInLegacy(a, all);
  }

  /** On the same arena the newer allocator rounds the cursor up to 8 and places the group at slots 8 to 11. */
  lemma {:induction false} NewerStuckExample(a: seq<Tile>, all: seq<nat>)
    requires a == STUCK_ARENA && all == STUCK_ALL
    ensures forall i :: 0 <= i < |all| ==> all[i] < |a|
    ensures PositionLog(a, all) == [Placed(1, [2, 3, 4], 8)]
  {
    StuckLists(a, all);
    assert Children(a, 1) == [2, 3, 4];
    PlacedInNewer(a, all, 1);
  }

  /** Older run: no free tile, one 4-master, start cursor 1. */
  lemma {:induction false} StuckInLegacy(a: seq<Tile>, all: seq<nat>)
    requires forall i :: 0 <= i < |all| ==> all[i] < |a|
    requires InitialQueues(a, all) == Queues([], [1], []) && StartIndex(a, all) == 1
    ensures LegacyRun(a, all) == Err(NeverTerminates)
  {
    var q := Queues([], [1], []);
    assert LegacyPick(a, q, 1).None?;
    assert LegacyWalk(a, q, 1) == Walk([], q, 1);
  }

  /** Newer run: no free tile, one 4-master `m`, start cursor 1. */
  lemma {:induction false} PlacedInNewer(a: seq<Tile>, all: seq<nat>, m: nat)
    requires forall i :: 0 <= i < |all| ==> all[i] < |a|
    requires InitialQueues(a, all) == Queues([], [m], []) && StartIndex(a, all) == 1
    ensures PositionLog(a, all) == [Placed(m, Children(a, m), 8)]
  {
    var q := Queues([], [m], []);
    var w := Walk([], q, 1);
    assert Fifo(a, q, 1) == w;
    var none := Queues([], [], []);
    var r8 := Walk([], none, 8);
    assert RoundUp8(1) == 8 && Flush(a, [], 8) == r8;
    var p := Placed(m, Children(a, m), 8);
    FlushOne(a, m, 8);
    var r4 := Walk([p], none, End(p));
    PositionLogPhases(a, all, w, r8, r4);
    assert [] + [] + [p] == [p];
  }

  lemma {:induction false} FlushOne(a: seq<Tile>, m: nat, cur: int)
    ensures Flush(a, [m], cur) == Walk([Placed(m, Children(a, m), cur)], Queues([], [], []), End(Placed(m, Children(a, m), cur)))
  {
    assert [m][..0] == [];
  }

  /** The lists and the start cursor on the stuck arena. */
  lemma {:induction false} StuckLists(a: seq<Tile>, all: seq<nat>)
    requires a == STUCK_ARENA && all == STUCK_ALL
    ensures forall i :: 0 <= i < |all| ==> all[i] < |a|
    ensures InitialQueues(a, all) == Queues([], [1], [])
    ensures StartIndex(a, all) == 1
  {
    StuckSelect(a, all, Anywhere);
    StuckSelect(a, all, OnFours);
    StuckSelect(a, all, OnEights);
    forall i | 1 <= i < |all| ensures a[all[i]].cromIndex.None? {
      assert all[i] == i;
    }
    StartAfterOnlyPreset(a, all, 0);
  }

  lemma {:induction false} StartAfterOnlyPreset(a: seq<Tile>, all: seq<nat>, v: int)
    requires forall i :: 0 <= i < |all| ==> all[i] < |a|
    requires all != [] && a[all[0]].cromIndex == Some(v)
    requires forall i :: 1 <= i < |all| ==> a[all[i]].cromIndex.None?
    ensures StartIndex(a, all) == v + 1
  {
    var r := StartIndex(a, all);
    var i :| 0 <= i < |all| && a[all[i]].cromIndex == Some(r - 1);
  }

  lemma {:induction false} StuckPrefixes()
    ensures STUCK_ALL[..4] == [0, 1, 2, 3] && [0, 1, 2, 3][..3] == [0, 1, 2]
    ensures [0, 1, 2][..2] == [0, 1] && [0, 1][..1] == [0] && [0][..0] == []
  {
  }

  lemma {:induction false} StuckSelect(a: seq<Tile>, all: seq<nat>, k: Kind)
    requires a == STUCK_ARENA && all == STUCK_ALL
    ensures forall i :: 0 <= i < |all| ==> all[i] < |a|
    ensures Select(a, all, k) == if k == OnFours then [1] else []
  {
    StuckPrefixes();
    var r := if k == OnFours then [1] else [];
    assert Select(a, [0], k) == [];
    assert Select(a, [0, 1], k) == r;
    assert Select(a, [0, 1, 2], k) == r;
    assert Select(a, [0, 1, 2, 3], k) == r;
  }

  // ---------------------------------------------------------------------
  // The older allocator on the arena

  // The older source does not drop empty cells, so its method requires `NoEmptyCells`.

  /** Each of the older loop's picks leaves the lists ready for the next. */
  lemma {:induction false} LegacyPickReady(a: seq<Tile>, q: Queues, cur: int)
    requires Ready(a, q) && LegacyPick(a, q, cur).Some?
    ensures Ready(a, LegacyPick(a, q, cur).value.1)
  {
  }

  /** One pass of the older loop body, when one of its branches fires. */
  method LegacyPass(tiles: array<Tile>, free0: seq<nat>, fours0: seq<nat>, eights0: seq<nat>, cur0: int,
                    ghost a: seq<Tile>, ghost done: seq<Placed>)
    returns (free: seq<nat>, fours: seq<nat>, eights: seq<nat>, cur: int)
    requires tiles[..] == Apply(a, done) && ArenaValid(a) && Ready(a, Queues(free0, fours0, eights0))
    requires LegacyPick(a, Queues(free0, fours0, eights0), cur0).Some?
    modifies tiles
    ensures var pick := LegacyPick(a, Queues(free0, fours0, eights0), cur0).value;
            Queues(free, fours, eights) == pick.1 && cur == End(pick.0)
            && tiles[..] == Apply(a, done + [pick.0])
    ensures Ready(a, Queues(free, fours, eights))
  {
    LegacyPickReady(a, Queues(free0, fours0, eights0), cur0);
    free, fours, eights, cur := free0, fours0, eights0, cur0;
    ghost var p := LegacyPick(a, Queues(free0, fours0, eights0), cur0).value.0;
    if cur % 8 == 0 && |eights| > 0 {
      var m := eights[|eights| - 1];
      eights := eights[..|eights| - 1];
      cur := PlaceGroup(tiles, m, cur, a, done);
    } else if cur % 4 == 0 && |fours| > 0 {
      var m := fours[|fours| - 1];
      fours := fours[..|fours| - 1];
      cur := PlaceGroup(tiles, m, cur, a, done);
    } else if |free| > 0 {
      var t := free[|free| - 1];
      free := free[..|free| - 1];
      PlaceOne(tiles[..], t, cur);
      tiles[t] := tiles[t].(cromIndex := Some(cur));
      cur := cur + 1;
      ApplySnoc(a, done, p);
    }
  }

  /**
   * The older `positionCroms`, once the generators have set their own
   * slots. Where the source would loop forever the model returns
   * `NeverTerminates`, with the placements made up to that point.
   */
  method LegacyPositionCroms(images: seq<Matrix>, tiles: array<Tile>) returns (o: Outcome)
    requires CellsIn(images, tiles.Length) && ArenaValid(tiles[..]) && NoEmptyCells(images)
    modifies tiles
    ensures forall k :: 0 <= k < |Visits(images)| ==> Visits(images)[k] < tiles.Length
    ensures var w := LegacyWalk(old(tiles[..]), InitialQueues(old(tiles[..]), Visits(images)),
                                StartIndex(old(tiles[..]), Visits(images)));
            tiles[..] == Apply(old(tiles[..]), w.log)
    ensures o.Pass? <==> LegacyRun(old(tiles[..]), Visits(images)).Ok?
    ensures o.Fail? ==> o.error == NeverTerminates
  {
    ghost var a := tiles[..];
    var all := Visits(images);
    VisitsIn(images, tiles.Length);
    var free := Select(tiles[..], all, Anywhere);
    var fours := Select(tiles[..], all, OnFours);
    var eights := Select(tiles[..], all, OnEights);
    var cur := StartIndex(tiles[..], all);
    assert Queues(free, fours, eights) == InitialQueues(a, all) && cur == StartIndex(a, all);
    assert Ready(a, Queues(free, fours, eights));
    o := LegacyLoop(tiles, Queues(free, fours, eights), cur, a);
  }

  /**
   * The older main loop, from lists `q` and cursor `cur0`: `Pass` when
   * the lists run out, `NeverTerminates` when no branch can fire.
   */
  method LegacyLoop(tiles: array<Tile>, q: Queues, cur0: int, ghost a: seq<Tile>) returns (o: Outcome)
    requires tiles[..] == a && ArenaValid(a) && Ready(a, q)
    modifies tiles
    ensures tiles[..] == Apply(a, LegacyWalk(a, q, cur0).log)
    ensures o == if Size(LegacyWalk(a, q, cur0).rest) == 0 then Pass else Fail(NeverTerminates)
  {
    var free, fours, eights, cur := q.free, q.fours, q.eights, cur0;
    ghost var w := LegacyWalk(a, q, cur0);
    ghost var done: seq<Placed> := [];
    ghost var pending := w;
    while |eights| > 0 || |fours| > 0 || |free| > 0
      invariant Ready(a, Queues(free, fours, eights))
      invariant tiles[..] == Apply(a, done)
      invariant pending == LegacyWalk(a, Queues(free, fours, eights), cur)
      invariant done + pending.log == w.log && pending.rest == w.rest
      decreases |free| + |fours| + |eights|
    {
      if !(cur % 8 == 0 && |eights| > 0) && !(cur % 4 == 0 && |fours| > 0) && |free| == 0 {
        // no branch fires and nothing changes: the source loops forever
        assert done + [] == done;
        return Fail(NeverTerminates);
      }
      ghost var pick := LegacyPick(a, Queues(free, fours, eights), cur).value;
      ghost var later := LegacyWalk(a, pick.1, End(pick.0));
      LegacyStep(a, Queues(free, fours, eights), cur);
      free, fours, eights, cur := LegacyPass(tiles, free, fours, eights, cur, a, done);
      AppendAssoc(done, [pick.0], later.log);
      done := done + [pick.0];
      pending := later;
    }
    // every list is empty here: the throw and both flush loops are dead
    assert done + [] == done;
    o := Pass;
  }
}
