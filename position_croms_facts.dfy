/**
 * What a newer `positionCroms` run guarantees, stated on its placement
 * log: the groups take disjoint runs of slots above every preset slot,
 * animation masters sit on their alignment, every master comes with its
 * own child frames, every listed tile is placed once per listing, and the
 * arena afterwards holds exactly those slots.
 */
module CromPositionFacts {
  import opened Wrappers
  import opened Tiles
  import opened Seqs
  import opened CromPositions

  /** The groups of `log` start at `from` or later, each after the previous one ends, and all end by `end`. */
  predicate Chain(log: seq<Placed>, from: int, end: int)
    decreases |log|
  {
    if log == [] then from <= end
    else from <= log[0].slot && Chain(log[1..], End(log[0]), end)
  }

  /** The slot runs of `log` start at `from` or later and do not overlap: group `i` ends before group `j > i` starts. */
  predicate Separated(log: seq<Placed>, from: int) {
    (forall i :: 0 <= i < |log| ==> from <= log[i].slot)
    && (forall i, j :: 0 <= i < j < |log| ==> End(log[i]) <= log[j].slot)
  }

  /** Animation masters sit on their alignment: 7 children on a multiple of 8, 3 on a multiple of 4. */
  predicate Aligned(log: seq<Placed>) {
    forall i :: 0 <= i < |log| ==>
      (|log[i].children| == 7 ==> log[i].slot % 8 == 0) && (|log[i].children| == 3 ==> log[i].slot % 4 == 0)
  }

  /** Every group carries the child frames of its own master. */
  predicate OwnChildren(a: seq<Tile>, log: seq<Placed>) {
    forall i :: 0 <= i < |log| ==> log[i].children == Children(a, log[i].tile)
  }

  /** Every tile of `list` is an arena tile that belongs in list `k`. */
  predicate AllKind(a: seq<Tile>, list: seq<nat>, k: Kind) {
    forall i :: 0 <= i < |list| ==> list[i] < |a| && IsKind(a[list[i]], k)
  }

  /** Every listed tile is an arena tile that belongs in its list. */
  predicate Kinds(a: seq<Tile>, q: Queues) {
    AllKind(a, q.free, Anywhere) && AllKind(a, q.fours, OnFours) && AllKind(a, q.eights, OnEights)
  }

  /** `x` is what is left of `y` after taking some elements from its front. */
  predicate SuffixOf<T(==)>(x: seq<T>, y: seq<T>) {
    |x| <= |y| && x == y[|y| - |x|..]
  }

  /** The masters of a log, group by group. */
  function Masters(log: seq<Placed>): (r: seq<nat>)
    ensures |r| == |log| && forall i :: 0 <= i < |log| ==> r[i] == log[i].tile
  {
    seq(|log|, i requires 0 <= i < |log| => log[i].tile)
  }

  /** All the tiles listed in `q`, with their multiplicities. */
  function Listed(q: Queues): multiset<nat> {
    multiset(q.free) + multiset(q.fours) + multiset(q.eights)
  }

  /** `s` back to front. */
  function Reversed<T>(s: seq<T>): (r: seq<T>)
    ensures |r| == |s|
  {
    if s == [] then [] else [s[|s| - 1]] + Reversed(s[..|s| - 1])
  }

  /** The tiles a log writes, group by group: each master, then its children. */
  function Written(log: seq<Placed>): seq<nat> {
    if log == [] then [] else Written(log[..|log| - 1]) + Group(log[|log| - 1])
  }

  // ---------------------------------------------------------------------
  // Slots: chained, hence disjoint

  lemma {:induction false} FifoChain(a: seq<Tile>, q: Queues, cur: int)
    ensures Chain(Fifo(a, q, cur).log, cur, Fifo(a, q, cur).cur)
    decreases Size(q)
  {
    if q.free != [] {
      var pick := FifoPick(a, q, cur);
      FifoChain(a, pick.1, End(pick.0));
      FifoStep(a, q, cur);
      assert Fifo(a, q, cur).log[1..] == Fifo(a, pick.1, End(pick.0)).log;
    }
  }

  lemma {:induction false} FlushChain(a: seq<Tile>, list: seq<nat>, cur: int)
    ensures Chain(Flush(a, list, cur).log, cur, Flush(a, list, cur).cur)
    decreases |list|
  {
    if list != [] {
      var m := list[|list| - 1];
      var p := Placed(m, Children(a, m), cur);
      FlushChain(a, list[..|list| - 1], End(p));
      assert Flush(a, list, cur).log[1..] == Flush(a, list[..|list| - 1], End(p)).log;
    }
  }

  lemma {:induction false} ChainFrom(log: seq<Placed>, from: int, from': int, end: int)
    requires from' <= from && Chain(log, from, end)
    ensures Chain(log, from', end)
  {
  }

  lemma {:induction false} ChainAppend(x: seq<Placed>, y: seq<Placed>, from: int, mid: int, end: int)
    requires Chain(x, from, mid) && Chain(y, mid, end)
    ensures Chain(x + y, from, end)
    decreases |x|
  {
    if x == [] {
      assert x + y == y;
      ChainFrom(y, mid, from, end);
    } else {
      ChainAppend(x[1..], y, End(x[0]), mid, end);
      assert (x + y)[1..] == x[1..] + y;
    }
  }

  lemma {:induction false} ChainSeparated(log: seq<Placed>, from: int, end: int)
    requires Chain(log, from, end)
    ensures from <= end && Separated(log, from)
    ensures forall i :: 0 <= i < |log| ==> End(log[i]) <= end
    decreases |log|
  {
    if log != [] {
      var rest := log[1..];
      ChainSeparated(rest, End(log[0]), end);
      forall i | 0 <= i < |log|
        ensures from <= log[i].slot && End(log[i]) <= end
      {
        if i > 0 {
          assert log[i] == rest[i - 1];
        }
      }
      forall i, j | 0 <= i < j < |log|
        ensures End(log[i]) <= log[j].slot
      {
        assert log[j] == rest[j - 1];
        if i > 0 {
          assert log[i] == rest[i - 1];
        }
      }
    }
  }

  /**
   * The groups of a run take disjoint runs of slots, in placement order,
   * all from the start cursor on, so every one lies above every preset slot.
   */
  lemma {:induction false} NewerSlotsDisjoint(a: seq<Tile>, all: seq<nat>)
    requires forall i :: 0 <= i < |all| ==> all[i] < |a|
    ensures Separated(PositionLog(a, all), StartIndex(a, all))
    ensures forall g, k :: 0 <= g < |PositionLog(a, all)| && 0 <= k < |all| && a[all[k]].cromIndex.Some? ==>
              a[all[k]].cromIndex.value < PositionLog(a, all)[g].slot
  {
    var s := StartIndex(a, all);
    var w := Fifo(a, InitialQueues(a, all), s);
    var r8 := Flush(a, w.rest.eights, RoundUp8(w.cur));
    var r4 := Flush(a, w.rest.fours, r8.cur);
    PositionLogPhases(a, all, w, r8, r4);
    FifoChain(a, InitialQueues(a, all), s);
    FlushChain(a, w.rest.eights, RoundUp8(w.cur));
    ChainFrom(r8.log, RoundUp8(w.cur), w.cur, r8.cur);
    FlushChain(a, w.rest.fours, r8.cur);
    ChainAppend(w.log, r8.log, s, w.cur, r8.cur);
    ChainAppend(w.log + r8.log, r4.log, s, r8.cur, r4.cur);
    ChainSeparated(w.log + r8.log + r4.log, s, r4.cur);
  }

  // ---------------------------------------------------------------------
  // Group shape: alignment and children

  lemma {:induction false} FifoShape(a: seq<Tile>, q: Queues, cur: int)
    requires Kinds(a, q)
    ensures Aligned(Fifo(a, q, cur).log) && OwnChildren(a, Fifo(a, q, cur).log)
    decreases Size(q)
  {
    if q.free != [] {
      var pick := FifoPick(a, q, cur);
      var p := pick.0;
      var later := Fifo(a, pick.1, End(p));
      FifoShape(a, pick.1, End(p));
      FifoStep(a, q, cur);
      var log := Fifo(a, q, cur).log;
      forall i | 0 <= i < |log|
        ensures (|log[i].children| == 7 ==> log[i].slot % 8 == 0) && (|log[i].children| == 3 ==> log[i].slot % 4 == 0)
        ensures log[i].children == Children(a, log[i].tile)
      {
        if i > 0 {
          assert log[i] == later.log[i - 1];
        } else if !(cur % 8 == 0 && q.eights != []) && !(cur % 4 == 0 && q.fours != []) {
          assert IsKind(a[q.free[0]], Anywhere);
        }
      }
    }
  }

  /** The cursor past an animation group of list `k`: 8 or 4 slots on. */
  function Width(k: Kind): int {
    if k == OnEights then 8 else 4
  }

  lemma {:induction false} FlushShape(a: seq<Tile>, list: seq<nat>, cur: int, k: Kind)
    requires k != Anywhere && cur % Width(k) == 0 && AllKind(a, list, k)
    ensures Aligned(Flush(a, list, cur).log) && OwnChildren(a, Flush(a, list, cur).log)
    ensures Flush(a, list, cur).cur % Width(k) == 0
    decreases |list|
  {
    if list != [] {
      var m := list[|list| - 1];
      var p := Placed(m, Children(a, m), cur);
      var later := Flush(a, list[..|list| - 1], End(p));
      assert End(p) == cur + Width(k);
      FlushShape(a, list[..|list| - 1], End(p), k);
      var log := Flush(a, list, cur).log;
      forall i | 0 <= i < |log|
        ensures (|log[i].children| == 7 ==> log[i].slot % 8 == 0) && (|log[i].children| == 3 ==> log[i].slot % 4 == 0)
        ensures log[i].children == Children(a, log[i].tile)
      {
        if i > 0 {
          assert log[i] == later.log[i - 1];
        }
      }
    }
  }

  /** What the main loop leaves: no free tiles, and the untaken tails of the master lists. */
  lemma {:induction false} FifoRest(a: seq<Tile>, q: Queues, cur: int)
    ensures Fifo(a, q, cur).rest.free == []
    ensures SuffixOf(Fifo(a, q, cur).rest.fours, q.fours) && SuffixOf(Fifo(a, q, cur).rest.eights, q.eights)
    decreases Size(q)
  {
    if q.free == [] {
      SuffixSelf(q.fours);
      SuffixSelf(q.eights);
    } else {
      var pick := FifoPick(a, q, cur);
      FifoRest(a, pick.1, End(pick.0));
      FifoStep(a, q, cur);
      var r := Fifo(a, pick.1, End(pick.0)).rest;
      if cur % 8 == 0 && q.eights != [] {
        SuffixTail(r.eights, q.eights);
      } else if cur % 4 == 0 && q.fours != [] {
        SuffixTail(r.fours, q.fours);
      }
    }
  }

  lemma {:induction false} SuffixSelf<T>(x: seq<T>)
    ensures SuffixOf(x, x)
  {
    assert x[0..] == x;
  }

  lemma {:induction false} SuffixTail<T>(x: seq<T>, y: seq<T>)
    requires y != [] && SuffixOf(x, y[1..])
    ensures SuffixOf(x, y)
  {
    assert y[1..][|y| - 1 - |x|..] == y[|y| - |x|..];
  }

  /** The tails of lists whose tiles belong in them still do. */
  lemma {:induction false} KindsOfRest(a: seq<Tile>, q: Queues, r: Queues)
    requires Kinds(a, q) && r.free == [] && SuffixOf(r.fours, q.fours) && SuffixOf(r.eights, q.eights)
    ensures Kinds(a, r)
  {
    forall i | 0 <= i < |r.fours|
      ensures r.fours[i] == q.fours[|q.fours| - |r.fours| + i]
    {
    }
    forall i | 0 <= i < |r.eights|
      ensures r.eights[i] == q.eights[|q.eights| - |r.eights| + i]
    {
    }
  }

  lemma {:induction false} InitialKinds(a: seq<Tile>, all: seq<nat>)
    requires forall i :: 0 <= i < |all| ==> all[i] < |a|
    ensures Kinds(a, InitialQueues(a, all))
  {
  }

  lemma {:induction false} EightsAreFours(c: int)
    requires c % 8 == 0
    ensures c % 4 == 0
  {
    assert c == 8 * (c / 8);
  }

  lemma {:induction false} AlignedAppend(x: seq<Placed>, y: seq<Placed>, a: seq<Tile>)
    requires Aligned(x) && Aligned(y) && OwnChildren(a, x) && OwnChildren(a, y)
    ensures Aligned(x + y) && OwnChildren(a, x + y)
  {
    forall i | 0 <= i < |x + y|
      ensures (x + y)[i] == if i < |x| then x[i] else y[i - |x|]
    {
    }
  }

  /**
   * Every 7-child master of a run sits on a multiple of 8, every 3-child
   * master on a multiple of 4, and each group holds its master's own
   * child frames.
   */
  lemma {:induction false} NewerAligned(a: seq<Tile>, all: seq<nat>)
    requires forall i :: 0 <= i < |all| ==> all[i] < |a|
    ensures Aligned(PositionLog(a, all)) && OwnChildren(a, PositionLog(a, all))
  {
    var q := InitialQueues(a, all);
    var w := Fifo(a, q, StartIndex(a, all));
    var r8 := Flush(a, w.rest.eights, RoundUp8(w.cur));
    var r4 := Flush(a, w.rest.fours, r8.cur);
    InitialKinds(a, all);
    PositionLogPhases(a, all, w, r8, r4);
    FifoShape(a, q, StartIndex(a, all));
    FifoRest(a, q, StartIndex(a, all));
    KindsOfRest(a, q, w.rest);
    FlushShape(a, w.rest.eights, RoundUp8(w.cur), OnEights);
    EightsAreFours(r8.cur);
    FlushShape(a, w.rest.fours, r8.cur, OnFours);
    AlignedAppend(w.log, r8.log, a);
    AlignedAppend(w.log + r8.log, r4.log, a);
  }

  // ---------------------------------------------------------------------
  // Coverage: every listed tile is placed, once per listing

  /** One pass takes one listed tile out of the lists. */
  lemma {:induction false} PickCovers(a: seq<Tile>, q: Queues, cur: int)
    requires q.free != []
    ensures Listed(q) == multiset{FifoPick(a, q, cur).0.tile} + Listed(FifoPick(a, q, cur).1)
  {
    if cur % 8 == 0 && q.eights != [] {
      assert FifoPick(a, q, cur).0.tile == q.eights[0] && FifoPick(a, q, cur).1 == q.(eights := q.eights[1..]);
      TakeOut(q, Queues(q.free, q.fours, q.eights[1..]), q.eights[0]);
    } else if cur % 4 == 0 && q.fours != [] {
      assert FifoPick(a, q, cur).0.tile == q.fours[0] && FifoPick(a, q, cur).1 == q.(fours := q.fours[1..]);
      TakeOut(q, Queues(q.free, q.fours[1..], q.eights), q.fours[0]);
    } else {
      assert FifoPick(a, q, cur).0.tile == q.free[0] && FifoPick(a, q, cur).1 == q.(free := q.free[1..]);
      TakeOut(q, Queues(q.free[1..], q.fours, q.eights), q.free[0]);
    }
  }

  /** Taking `x` off the front or the back of one list takes it out of `Listed`. */
  lemma {:induction false} TakeOut(q: Queues, q': Queues, x: nat)
    requires (q'.fours == q.fours && q'.eights == q.eights && (q.free == [x] + q'.free || q.free == q'.free + [x]))
          || (q'.free == q.free && q'.eights == q.eights && (q.fours == [x] + q'.fours || q.fours == q'.fours + [x]))
          || (q'.free == q.free && q'.fours == q.fours && (q.eights == [x] + q'.eights || q.eights == q'.eights + [x]))
    ensures Listed(q) == multiset{x} + Listed(q')
  {
  }

  lemma {:induction false} FifoCovers(a: seq<Tile>, q: Queues, cur: int)
    ensures multiset(Masters(Fifo(a, q, cur).log)) + Listed(Fifo(a, q, cur).rest) == Listed(q)
    decreases Size(q)
  {
    if q.free != [] {
      var pick := FifoPick(a, q, cur);
      var later := Fifo(a, pick.1, End(pick.0));
      FifoCovers(a, pick.1, End(pick.0));
      FifoStep(a, q, cur);
      PickCovers(a, q, cur);
      MastersCons(pick.0, later.log);
      CoverStep(Listed(q), pick.0.tile, multiset(Masters(later.log)), Listed(later.rest), Listed(pick.1));
    }
  }

  lemma {:induction false} MastersCons(p: Placed, log: seq<Placed>)
    ensures multiset(Masters([p] + log)) == multiset{p.tile} + multiset(Masters(log))
  {
    assert Masters([p] + log) == [p.tile] + Masters(log);
  }

  lemma {:induction false} CoverStep(all: multiset<nat>, t: nat, placed: multiset<nat>, rest: multiset<nat>, left: multiset<nat>)
    requires placed + rest == left && all == multiset{t} + left
    ensures multiset{t} + placed + rest == all
  {
  }

  lemma {:induction false} MastersAppend(x: seq<Placed>, y: seq<Placed>)
    ensures multiset(Masters(x + y)) == multiset(Masters(x)) + multiset(Masters(y))
  {
    assert Masters(x + y) == Masters(x) + Masters(y);
  }

  /** A flush takes its list from the back. */
  lemma {:induction false} FlushOrder(a: seq<Tile>, list: seq<nat>, cur: int)
    ensures Masters(Flush(a, list, cur).log) == Reversed(list)
    decreases |list|
  {
    if list != [] {
      var m := list[|list| - 1];
      var p := Placed(m, Children(a, m), cur);
      var later := Flush(a, list[..|list| - 1], End(p));
      FlushOrder(a, list[..|list| - 1], End(p));
      assert Masters([p] + later.log) == [m] + Masters(later.log);
    }
  }

  lemma {:induction false} ReversedPerm<T>(s: seq<T>)
    ensures multiset(Reversed(s)) == multiset(s)
  {
    if s != [] {
      ReversedPerm(s[..|s| - 1]);
      assert s == s[..|s| - 1] + [s[|s| - 1]];
    }
  }

  /**
   * A run places every tile of the three lists, each as often as it is
   * listed, and nothing else.
   */
  lemma {:induction false} NewerCovers(a: seq<Tile>, all: seq<nat>)
    requires forall i :: 0 <= i < |all| ==> all[i] < |a|
    ensures multiset(Masters(PositionLog(a, all))) == Listed(InitialQueues(a, all))
  {
    var q := InitialQueues(a, all);
    var w := Fifo(a, q, StartIndex(a, all));
    var r8 := Flush(a, w.rest.eights, RoundUp8(w.cur));
    var r4 := Flush(a, w.rest.fours, r8.cur);
    PositionLogPhases(a, all, w, r8, r4);
    FifoCovers(a, q, StartIndex(a, all));
    FifoRest(a, q, StartIndex(a, all));
    FlushOrder(a, w.rest.eights, RoundUp8(w.cur));
    FlushOrder(a, w.rest.fours, r8.cur);
    ReversedPerm(w.rest.eights);
    ReversedPerm(w.rest.fours);
    MastersAppend(w.log, r8.log);
    MastersAppend(w.log + r8.log, r4.log);
  }

  /**
   * The master lists do not look at `cromIndex`: an animation master with
   * a preset slot is placed all the same.
   */
  lemma {:induction false} NewerMovesPresetMasters(a: seq<Tile>, all: seq<nat>, k: nat)
    requires forall i :: 0 <= i < |all| ==> all[i] < |a|
    requires k < |all| && a[all[k]].childAnimationFrames.Some?
    requires |a[all[k]].childAnimationFrames.value| in {3, 7}
    ensures all[k] in Masters(PositionLog(a, all))
  {
    NewerCovers(a, all);
    var q := InitialQueues(a, all);
    if |a[all[k]].childAnimationFrames.value| == 3 {
      assert IsKind(a[all[k]], OnFours);
      assert all[k] in multiset(q.fours);
    } else {
      assert IsKind(a[all[k]], OnEights);
      assert all[k] in multiset(q.eights);
    }
    assert all[k] in multiset(Masters(PositionLog(a, all)));
  }

  // ---------------------------------------------------------------------
  // The arena after a run

  lemma {:induction false} DistinctAppend<T>(x: seq<T>, y: seq<T>)
    requires Distinct(x + y)
    ensures Distinct(x) && Distinct(y)
    ensures forall i, j :: 0 <= i < |x| && 0 <= j < |y| ==> x[i] != y[j]
  {
    forall i, j | 0 <= i < j < |x|
      ensures x[i] != x[j]
    {
      assert x[i] == (x + y)[i] && x[j] == (x + y)[j];
    }
    forall i, j | 0 <= i < j < |y|
      ensures y[i] != y[j]
    {
      assert y[i] == (x + y)[|x| + i] && y[j] == (x + y)[|x| + j];
    }
    forall i, j | 0 <= i < |x| && 0 <= j < |y|
      ensures x[i] != y[j]
    {
      assert x[i] == (x + y)[i] && y[j] == (x + y)[|x| + j];
    }
  }

  lemma {:induction false} SetSlotsDistinct(a: seq<Tile>, ts: seq<nat>, slot: int, k: nat)
    requires Distinct(ts) && k < |ts| && ts[k] < |a|
    ensures SetSlots(a, ts, slot)[ts[k]].cromIndex == Some(slot + k)
  {
    var n := |ts| - 1;
    if k < n {
      assert Distinct(ts[..n]);
      SetSlotsDistinct(a, ts[..n], slot, k);
      assert ts[n] != ts[k];
    }
  }

  lemma {:induction false} WrittenHas(log: seq<Placed>, g: nat, k: nat)
    requires g < |log| && k < |Group(log[g])|
    ensures Group(log[g])[k] in Written(log)
  {
    var n := |log| - 1;
    if g < n {
      WrittenHas(log[..n], g, k);
    }
  }

  /**
   * After a run that writes each tile at most once, the `k`-th tile of
   * group `g` (its master for `k == 0`, child frame `k - 1` after that)
   * holds the slot `k` past the group's first.
   */
  lemma {:induction false} ApplyPlaced(a: seq<Tile>, log: seq<Placed>, g: nat, k: nat)
    requires Distinct(Written(log)) && g < |log| && k < |Group(log[g])| && Group(log[g])[k] < |a|
    ensures Apply(a, log)[Group(log[g])[k]].cromIndex == Some(log[g].slot + k)
  {
    var n := |log| - 1;
    var init := log[..n];
    DistinctAppend(Written(init), Group(log[n]));
    if g == n {
      SetSlotsDistinct(Apply(a, init), Group(log[n]), log[n].slot, k);
    } else {
      assert log[g] == init[g];
      ApplyPlaced(a, init, g, k);
      WrittenHas(init, g, k);
      SetSlotsAt(Apply(a, init), Group(log[n]), log[n].slot, Group(log[g])[k]);
    }
  }

  /** A tile no group writes is left as it was. */
  lemma {:induction false} ApplyUntouched(a: seq<Tile>, log: seq<Placed>, t: nat)
    requires t < |a| && t !in Written(log)
    ensures Apply(a, log)[t] == a[t]
  {
    if log != [] {
      var n := |log| - 1;
      ApplyUntouched(a, log[..n], t);
      SetSlotsAt(Apply(a, log[..n]), Group(log[n]), log[n].slot, t);
    }
  }
}
