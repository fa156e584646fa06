/**
 * Grouping tiles by palette and greedily merging the groups under the
 * 16-colour cap (`buildPaletteMap`, `mergePalettes`, `findPalette`). Both
 * generations of the palette code share these steps.
 *
 * The source keys its maps by palette arrays, that is by identity. Here a
 * palette map is an ordered sequence of groups, and a group is found by
 * its position.
 */
module PaletteGroups {
  import opened Wrappers
  import opened Color
  import opened Seqs
  import opened Palette24
  import opened PaletteSort

  /** One tile handed to the grouping: who it is and what it looks like. */
  datatype Entry<T> = Entry(member: T, pixels: seq<Rgba>)

  /** One palette-map entry: a palette and the tiles that use it. */
  datatype Group<T> = Group(palette: seq<int>, members: seq<T>)

  /** The canonical 16-bit palette of an image: extract, convert, sort. */
  function CanonicalPalette(pixels: seq<Rgba>): (p: seq<int>)
    ensures Distinct(p) && PaletteSorted(p)
    ensures |p| >= 1 && p[0] == TRANSPARENT16
  {
    var p24 := Palette24Of(pixels);
    var p16 := ConvertTo16BitPalette(p24);
    MagentaWord();
    assert p16[0] == TRANSPARENT16;
    SortPalette(p16)
  }

  /** The position of the group whose palette is `p`, if any (`Map.has`/`get`). */
  function GroupWithPalette<T(==)>(groups: seq<Group<T>>, p: seq<int>): (k: Option<nat>)
    ensures k.Some? ==> k.value < |groups| && groups[k.value].palette == p
    ensures k.Some? ==> forall j :: 0 <= j < k.value ==> groups[j].palette != p
    ensures k.None? ==> forall j :: 0 <= j < |groups| ==> groups[j].palette != p
  {
    if |groups| == 0 then None
    else
      var k := GroupWithPalette(groups[..|groups| - 1], p);
      if k.Some? then k
      else if groups[|groups| - 1].palette == p then Some(|groups| - 1)
      else None
  }

  /** One step of `buildPaletteMap`: file `m` under palette `p`. */
  function AddToGroups<T(==)>(groups: seq<Group<T>>, m: T, p: seq<int>): (r: seq<Group<T>>)
  {
    var k := GroupWithPalette(groups, p);
    if k.Some? then groups[k.value := Group(p, groups[k.value].members + [m])]
    else groups + [Group(p, [m])]
  }

  /** What `buildPaletteMap` computes: null entries skipped, the others filed in order. */
  function Grouped<T(==)>(entries: seq<Option<Entry<T>>>): (r: seq<Group<T>>)
  {
    if |entries| == 0 then []
    else
      var g := Grouped(entries[..|entries| - 1]);
      match entries[|entries| - 1]
      case None => g
      case Some(e) => AddToGroups(g, e.member, CanonicalPalette(e.pixels))
  }

  /** The canonical palettes of the non-null entries, in order. */
  function EntryPalettes<T(==)>(entries: seq<Option<Entry<T>>>): (r: seq<seq<int>>)
  {
    if |entries| == 0 then []
    else
      var ps := EntryPalettes(entries[..|entries| - 1]);
      match entries[|entries| - 1]
      case None => ps
      case Some(e) => ps + [CanonicalPalette(e.pixels)]
  }

  /** The non-null entries whose canonical palette is `p`, in order. */
  function MembersWith<T(==)>(entries: seq<Option<Entry<T>>>, p: seq<int>): (r: seq<T>)
  {
    if |entries| == 0 then []
    else
      var ms := MembersWith(entries[..|entries| - 1], p);
      match entries[|entries| - 1]
      case None => ms
      case Some(e) => if CanonicalPalette(e.pixels) == p then ms + [e.member] else ms
  }

  /** The palettes of a palette map, in order (`Array.from(map.keys())`). */
  function Palettes<T(==)>(groups: seq<Group<T>>): (r: seq<seq<int>>)
    ensures |r| == |groups|
    ensures forall k :: 0 <= k < |groups| ==> r[k] == groups[k].palette
  {
    if |groups| == 0 then [] else [groups[0].palette] + Palettes(groups[1..])
  }

  /**
   * The reference description of a palette map: one group per distinct
   * canonical palette, in order of first appearance, holding exactly the
   * entries with that palette, in input order.
   */
  predicate DescribesGrouping<T(==)>(groups: seq<Group<T>>, entries: seq<Option<Entry<T>>>) {
    Palettes(groups) == Uniq(EntryPalettes(entries))
    && forall k :: 0 <= k < |groups| ==> groups[k].members == MembersWith(entries, groups[k].palette)
  }

  /**
   * `buildPaletteMap` groups two tiles together exactly when their canonical
   * palettes are equal, skips nulls, and orders groups by first appearance.
   */
  lemma {:induction false} GroupedIsGrouping<T>(entries: seq<Option<Entry<T>>>)
    ensures DescribesGrouping(Grouped(entries), entries)
  {
    if |entries| > 0 {
      var init, x := entries[..|entries| - 1], entries[|entries| - 1];
      assert entries == init + [x];
      GroupedIsGrouping(init);
      GroupingStep(init, x);
    }
  }

  /** One more entry keeps the grouping described. */
  lemma {:induction false} GroupingStep<T>(init: seq<Option<Entry<T>>>, x: Option<Entry<T>>)
    requires DescribesGrouping(Grouped(init), init)
    ensures DescribesGrouping(Grouped(init + [x]), init + [x])
  {
    assert (init + [x])[..|init|] == init;
    match x
    case None => GroupingSkipsNull(Grouped(init), init);
    case Some(e) =>
      var p := CanonicalPalette(e.pixels);
      if GroupWithPalette(Grouped(init), p).Some? {
        GroupingExtends(Grouped(init), init, e);
      } else {
        GroupingAppends(Grouped(init), init, e);
      }
  }

  lemma {:induction false} GroupingSkipsNull<T>(g: seq<Group<T>>, init: seq<Option<Entry<T>>>)
    requires DescribesGrouping(g, init)
    ensures DescribesGrouping(g, init + [None])
  {
    var entries := init + [None];
    assert entries[..|entries| - 1] == init;
    assert EntryPalettes(entries) == EntryPalettes(init);
    forall k | 0 <= k < |g| ensures MembersWith(entries, g[k].palette) == MembersWith(init, g[k].palette) { }
  }

  lemma {:induction false} SnocEntry<T>(init: seq<Option<Entry<T>>>, e: Entry<T>, q: seq<int>)
    ensures EntryPalettes(init + [Some(e)]) == EntryPalettes(init) + [CanonicalPalette(e.pixels)]
    ensures MembersWith(init + [Some(e)], q)
         == if CanonicalPalette(e.pixels) == q then MembersWith(init, q) + [e.member] else MembersWith(init, q)
  {
    assert (init + [Some(e)])[..|init|] == init;
  }

  lemma {:induction false} UniqSnocPresent<U>(ps: seq<U>, p: U)
    requires p in Uniq(ps)
    ensures Uniq(ps + [p]) == Uniq(ps)
  {
    assert (ps + [p])[..|ps|] == ps;
  }

  lemma {:induction false} UniqSnocAbsent<U>(ps: seq<U>, p: U)
    requires p !in Uniq(ps)
    ensures Uniq(ps + [p]) == Uniq(ps) + [p]
  {
    assert (ps + [p])[..|ps|] == ps;
  }

  /** A tile whose palette already has a group joins the end of that group. */
  lemma {:induction false} GroupingExtends<T>(g: seq<Group<T>>, init: seq<Option<Entry<T>>>, e: Entry<T>)
    requires DescribesGrouping(g, init)
    requires GroupWithPalette(g, CanonicalPalette(e.pixels)).Some?
    ensures DescribesGrouping(AddToGroups(g, e.member, CanonicalPalette(e.pixels)), init + [Some(e)])
  {
    var entries := init + [Some(e)];
    var p := CanonicalPalette(e.pixels);
    var ps := EntryPalettes(init);
    var k := GroupWithPalette(g, p).value;
    var r := AddToGroups(g, e.member, p);
    assert r == g[k := Group(p, g[k].members + [e.member])];
    SnocEntry(init, e, p);
    assert Palettes(g)[k] == p;
    UniqSnocPresent(ps, p);
    PalettesKept(g, k, Group(p, g[k].members + [e.member]));
    forall j | 0 <= j < |r| ensures r[j].members == MembersWith(entries, r[j].palette) {
      SnocEntry(init, e, r[j].palette);
      if j != k {
        assert Palettes(g)[j] != Palettes(g)[k];
      }
    }
  }

  /** Replacing a group by one with the same palette keeps the palette list. */
  lemma {:induction false} PalettesKept<T>(g: seq<Group<T>>, k: nat, grp: Group<T>)
    requires k < |g| && grp.palette == g[k].palette
    ensures Palettes(g[k := grp]) == Palettes(g)
  {
    var a, b := Palettes(g[k := grp]), Palettes(g);
    assert forall j :: 0 <= j < |a| ==> a[j] == b[j];
  }

  /** A tile with a new palette opens a new group at the end. */
  lemma {:induction false} GroupingAppends<T>(g: seq<Group<T>>, init: seq<Option<Entry<T>>>, e: Entry<T>)
    requires DescribesGrouping(g, init)
    requires GroupWithPalette(g, CanonicalPalette(e.pixels)).None?
    ensures DescribesGrouping(AddToGroups(g, e.member, CanonicalPalette(e.pixels)), init + [Some(e)])
  {
    var p := CanonicalPalette(e.pixels);
    var r := g + [Group(p, [e.member])];
    assert AddToGroups(g, e.member, p) == r;
    SnocEntry(init, e, p);
    AppendedPalettes(g, EntryPalettes(init), p, [e.member]);
    MembersWithAbsent(init, p);
    AppendedMembers(g, init, e);
  }

  /** Appending a group whose palette is new keeps the palettes first-appearance ordered. */
  lemma {:induction false} AppendedPalettes<T>(g: seq<Group<T>>, ps: seq<seq<int>>, p: seq<int>, ms: seq<T>)
    requires Palettes(g) == Uniq(ps)
    requires forall j :: 0 <= j < |g| ==> g[j].palette != p
    ensures Palettes(g + [Group(p, ms)]) == Uniq(ps + [p])
  {
    assert p !in Palettes(g) by {
      forall j | 0 <= j < |g| ensures Palettes(g)[j] != p { assert Palettes(g)[j] == g[j].palette; }
    }
    UniqSnocAbsent(ps, p);
    assert Palettes(g + [Group(p, ms)]) == Palettes(g) + [p];
  }

  /** The old groups keep their members and the new one holds just the new tile. */
  lemma {:induction false} AppendedMembers<T>(g: seq<Group<T>>, init: seq<Option<Entry<T>>>, e: Entry<T>)
    requires forall k :: 0 <= k < |g| ==> g[k].members == MembersWith(init, g[k].palette)
    requires forall j :: 0 <= j < |g| ==> g[j].palette != CanonicalPalette(e.pixels)
    requires MembersWith(init, CanonicalPalette(e.pixels)) == []
    ensures var r := g + [Group(CanonicalPalette(e.pixels), [e.member])];
      forall j :: 0 <= j < |r| ==> r[j].members == MembersWith(init + [Some(e)], r[j].palette)
  {
    var p := CanonicalPalette(e.pixels);
    var r := g + [Group(p, [e.member])];
    forall j | 0 <= j < |r| ensures r[j].members == MembersWith(init + [Some(e)], r[j].palette) {
      SnocEntry(init, e, r[j].palette);
      if j < |g| {
        OldGroupKept(g, init, e, p, j);
      }
    }
  }

  lemma {:induction false} OldGroupKept<T>(g: seq<Group<T>>, init: seq<Option<Entry<T>>>, e: Entry<T>, p: seq<int>, j: int)
    requires 0 <= j < |g| && g[j].palette != p
    requires g[j].members == MembersWith(init, g[j].palette)
    requires MembersWith(init + [Some(e)], g[j].palette) == MembersWith(init, g[j].palette)
    ensures (g + [Group(p, [e.member])])[j].members == MembersWith(init + [Some(e)], g[j].palette)
  {
  }

  /** A palette no entry has collects no members. */
  lemma {:induction false} MembersWithAbsent<T>(entries: seq<Option<Entry<T>>>, p: seq<int>)
    requires p !in Uniq(EntryPalettes(entries))
    ensures MembersWith(entries, p) == []
  {
    if |entries| > 0 {
      var init := entries[..|entries| - 1];
      var ps := EntryPalettes(init);
      match entries[|entries| - 1]
      case None =>
        MembersWithAbsent(init, p);
      case Some(e) =>
        assert EntryPalettes(entries) == ps + [CanonicalPalette(e.pixels)];
        assert (ps + [CanonicalPalette(e.pixels)])[|ps|] == CanonicalPalette(e.pixels);
        assert forall j :: 0 <= j < |ps| ==> ps[j] == (ps + [CanonicalPalette(e.pixels)])[j];
        MembersWithAbsent(init, p);
    }
  }

  /**
   * `buildPaletteMap`: walks the tiles, computes each non-null tile's
   * canonical palette and files the tile under it.
   */
  method BuildPaletteMap<T(==)>(entries: seq<Option<Entry<T>>>) returns (groups: seq<Group<T>>)
    ensures groups == Grouped(entries)
  {
    groups := [];
    var i := 0;
    while i < |entries|
      invariant 0 <= i <= |entries|
      invariant groups == Grouped(entries[..i])
    {
      assert entries[..i + 1][..i] == entries[..i];
      match entries[i] {
        case None =>
        case Some(e) =>
          var palette24 := Get24BitPalette(e.pixels);
          var palette16 := SortPalette(ConvertTo16BitPalette(palette24));
          var k := GroupWithPalette(groups, palette16);
          if k.Some? {
            groups := groups[k.value := Group(palette16, groups[k.value].members + [e.member])];
          } else {
            groups := groups + [Group(palette16, [e.member])];
          }
      }
      i := i + 1;
    }
    assert entries[..i] == entries;
  }

  /** A way of merging two palettes; `mergePalettes` uses `MergeTwoPalettes`. */
  type Merger = (seq<int>, seq<int>) -> seq<int>

  /** What one pass of the inner merge loop leaves: the grown group and the groups it skipped. */
  datatype Absorbed<T> = Absorbed(palette: seq<int>, members: seq<T>, left: seq<Group<T>>)

  /**
   * The inner loop of `mergePalettes`: walk `rest` front to back, absorbing each
   * group whose palette still fits alongside `palette` in 16 colours, and keeping
   * the others, in order, for later rounds.
   */
  function Absorb<T>(merge: Merger, palette: seq<int>, members: seq<T>, rest: seq<Group<T>>): (a: Absorbed<T>)
    ensures |a.left| <= |rest|
    decreases |rest|
  {
    if |rest| == 0 then Absorbed(palette, members, [])
    else
      var merged := merge(palette, rest[0].palette);
      if |merged| < 17 then Absorb(merge, merged, members + rest[0].members, rest[1..])
      else
        var a := Absorb(merge, palette, members, rest[1..]);
        Absorbed(a.palette, a.members, [rest[0]] + a.left)
  }

  /** What `mergePalettes` computes: each surviving group absorbs what fits after it. */
  function MergeAll<T>(merge: Merger, groups: seq<Group<T>>): (r: seq<Group<T>>)
    decreases |groups|
  {
    if |groups| == 0 then []
    else
      var a := Absorb(merge, groups[0].palette, groups[0].members, groups[1..]);
      [Group(a.palette, a.members)] + MergeAll(merge, a.left)
  }

  lemma {:induction false} AbsorbMergesFront<T>(merge: Merger, palette: seq<int>, members: seq<T>, rest: seq<Group<T>>, merged: seq<int>)
    requires |rest| > 0 && merged == merge(palette, rest[0].palette) && |merged| < 17
    ensures Absorb(merge, palette, members, rest) == Absorb(merge, merged, members + rest[0].members, rest[1..])
  {
  }

  lemma {:induction false} AbsorbSkipsFront<T>(merge: Merger, palette: seq<int>, members: seq<T>, rest: seq<Group<T>>, merged: seq<int>)
    requires |rest| > 0 && merged == merge(palette, rest[0].palette) && |merged| >= 17
    ensures var a := Absorb(merge, palette, members, rest[1..]);
      Absorb(merge, palette, members, rest) == Absorbed(a.palette, a.members, [rest[0]] + a.left)
  {
  }

  /** Every member of a palette map, group by group. */
  function AllMembers<T>(groups: seq<Group<T>>): (r: seq<T>)
  {
    if |groups| == 0 then [] else groups[0].members + AllMembers(groups[1..])
  }

  /**
   * `mergePalettes`: for each remaining palette `i`, try every later palette `k`;
   * when the two fit in one 16-colour palette, splice `k` out of the list and
   * fold its tiles into `i`'s.
   */
  method MergePalettes<T>(input: seq<Group<T>>) returns (result: seq<Group<T>>)
    ensures result == MergeAll(MergeTwoPalettes, input)
  {
    var all := input;
    result := [];
    var i := 0;
    while i < |all|
      invariant 0 <= i <= |all|
      invariant result + MergeAll(MergeTwoPalettes, all[i..]) == MergeAll(MergeTwoPalettes, input)
      decreases |all| - i
    {
      ghost var start := all;
      var iPalette, iSources;
      all, iPalette, iSources := AbsorbLater(all, i);
      MergeRound(MergeTwoPalettes, start, i, iPalette, iSources, all[i + 1..]);
      RoundDone(MergeTwoPalettes, input, result, start, all, i, Group(iPalette, iSources));
      result := result + [Group(iPalette, iSources)];
      i := i + 1;
    }
  }

  /**
   * The inner loop of `mergePalettes` for palette `i`: every later palette
   * that still fits is spliced out of `all` and folded into `i`'s.
   */
  method AbsorbLater<T>(all0: seq<Group<T>>, i: nat) returns (all: seq<Group<T>>, iPalette: seq<int>, iSources: seq<T>)
    requires i < |all0|
    ensures var a := Absorb(MergeTwoPalettes, all0[i].palette, all0[i].members, all0[i + 1..]);
      all == all0[..i + 1] + a.left && iPalette == a.palette && iSources == a.members
  {
    all := all0;
    iPalette := all[i].palette;
    iSources := all[i].members;
    ghost var skipped: seq<Group<T>> := [];
    var k := i + 1;
    assert all == all0[..i + 1] + skipped + all[k..] by {
      assert all0[..i + 1] + skipped == all0[..i + 1];
    }
    while k < |all|
      invariant i + 1 <= k <= |all| && k == i + 1 + |skipped|
      invariant all == all0[..i + 1] + skipped + all[k..]
      invariant Absorb(MergeTwoPalettes, all0[i].palette, all0[i].members, all0[i + 1..])
             == AfterSkipping(skipped, Absorb(MergeTwoPalettes, iPalette, iSources, all[k..]))
      decreases |all| - k
    {
      var merged := MergeTwoPalettes(iPalette, all[k].palette);
      if |merged| < 17 {
        MergeStep(MergeTwoPalettes, all0, i, skipped, all, k, iPalette, iSources, merged);
        iSources := iSources + all[k].members;
        all := JsSplice(all, k, 1, []);
        iPalette := merged;
      } else {
        SkipStep(MergeTwoPalettes, all0, i, skipped, all, k, iPalette, iSources, merged);
        skipped := skipped + [all[k]];
        k := k + 1;
      }
    }
    assert all[k..] == [] && all == all0[..i + 1] + skipped;
  }

  /** A round's result, with the groups skipped so far put back in front of what it leaves. */
  function AfterSkipping<T>(skipped: seq<Group<T>>, a: Absorbed<T>): Absorbed<T> {
    Absorbed(a.palette, a.members, skipped + a.left)
  }

  /** The inner loop's invariant survives absorbing the group at `k`. */
  lemma {:induction false} MergeStep<T>(merge: Merger, start: seq<Group<T>>, i: int, skipped: seq<Group<T>>, all: seq<Group<T>>, k: int,
                     palette: seq<int>, members: seq<T>, merged: seq<int>)
    requires 0 <= i && i + 1 <= k < |all| && k == i + 1 + |skipped| && i < |start|
    requires all == start[..i + 1] + skipped + all[k..]
    requires Absorb(merge, start[i].palette, start[i].members, start[i + 1..])
          == AfterSkipping(skipped, Absorb(merge, palette, members, all[k..]))
    requires merged == merge(palette, all[k].palette) && |merged| < 17
    ensures var all' := JsSplice(all, k, 1, []);
      |all'| == |all| - 1 && all' == start[..i + 1] + skipped + all'[k..]
      && Absorb(merge, start[i].palette, start[i].members, start[i + 1..])
         == AfterSkipping(skipped, Absorb(merge, merged, members + all[k].members, all'[k..]))
  {
    AbsorbMergesFront(merge, palette, members, all[k..], merged);
    assert all[k..][1..] == all[k + 1..];
    SpliceOutKeepsFront(all, k, start[..i + 1] + skipped);
  }

  /** Cutting out the element at `k` keeps what is in front of it and closes the gap. */
  lemma {:induction false} SpliceOutKeepsFront<T>(all: seq<T>, k: int, front: seq<T>)
    requires 0 <= k < |all| && |front| == k && all == front + all[k..]
    ensures |JsSplice(all, k, 1, [])| == |all| - 1
    ensures JsSplice(all, k, 1, []) == front + JsSplice(all, k, 1, [])[k..]
    ensures JsSplice(all, k, 1, [])[k..] == all[k + 1..]
  {
    var all' := JsSplice(all, k, 1, []);
    assert all' == all[..k] + all[k + 1..];
    assert all[..k] == front;
  }

  /** The inner loop's invariant survives passing over the group at `k`. */
  lemma {:induction false} SkipStep<T>(merge: Merger, start: seq<Group<T>>, i: int, skipped: seq<Group<T>>, all: seq<Group<T>>, k: int,
                    palette: seq<int>, members: seq<T>, merged: seq<int>)
    requires 0 <= i && i + 1 <= k < |all| && k == i + 1 + |skipped| && i < |start|
    requires all == start[..i + 1] + skipped + all[k..]
    requires Absorb(merge, start[i].palette, start[i].members, start[i + 1..])
          == AfterSkipping(skipped, Absorb(merge, palette, members, all[k..]))
    requires merged == merge(palette, all[k].palette) && |merged| >= 17
    ensures all == start[..i + 1] + (skipped + [all[k]]) + all[k + 1..]
    ensures Absorb(merge, start[i].palette, start[i].members, start[i + 1..])
         == AfterSkipping(skipped + [all[k]], Absorb(merge, palette, members, all[k + 1..]))
  {
    AbsorbSkipsFront(merge, palette, members, all[k..], merged);
    assert all[k..][1..] == all[k + 1..];
    assert all[k..] == [all[k]] + all[k + 1..];
  }

  /** The end of an outer round: `i`'s group is done and the skipped groups follow. */
  lemma {:induction false} MergeRound<T>(merge: Merger, start: seq<Group<T>>, i: int, palette: seq<int>, members: seq<T>, skipped: seq<Group<T>>)
    requires 0 <= i < |start|
    requires Absorb(merge, start[i].palette, start[i].members, start[i + 1..])
          == AfterSkipping(skipped, Absorb(merge, palette, members, []))
    ensures var all := start[..i + 1] + skipped;
      MergeAll(merge, start[i..]) == [Group(palette, members)] + MergeAll(merge, all[i + 1..])
  {
    var all := start[..i + 1] + skipped;
    assert all[i + 1..] == skipped == skipped + [];
    assert start[i..][0] == start[i] && start[i..][1..] == start[i + 1..];
  }

  /** The outer loop's invariant survives finishing group `i`. */
  lemma {:induction false} RoundDone<T>(merge: Merger, input: seq<Group<T>>, result: seq<Group<T>>, start: seq<Group<T>>,
                     all: seq<Group<T>>, i: int, g: Group<T>)
    requires 0 <= i < |start| && i < |all| && all[..i + 1] == start[..i + 1]
    requires result + MergeAll(merge, start[i..]) == MergeAll(merge, input)
    requires MergeAll(merge, start[i..]) == [g] + MergeAll(merge, (start[..i + 1] + all[i + 1..])[i + 1..])
    ensures (result + [g]) + MergeAll(merge, all[i + 1..]) == MergeAll(merge, input)
  {
    assert (start[..i + 1] + all[i + 1..])[i + 1..] == all[i + 1..];
  }

  /** The merge returns exactly the union of the two colour sets. */
  ghost predicate MergesAsUnion(merge: Merger) {
    forall a, b :: Elems(merge(a, b)) == Elems(a) + Elems(b)
  }

  /** The merge returns palettes in canonical form. */
  ghost predicate MergesCanonically(merge: Merger) {
    forall a, b :: Distinct(merge(a, b)) && PaletteSorted(merge(a, b))
  }

  lemma {:induction false} MergeTwoPalettesMerges()
    ensures MergesAsUnion(MergeTwoPalettes) && MergesCanonically(MergeTwoPalettes)
  {
    forall a, b ensures Elems(MergeTwoPalettes(a, b)) == Elems(a) + Elems(b)
      && Distinct(MergeTwoPalettes(a, b)) && PaletteSorted(MergeTwoPalettes(a, b))
    {
    }
  }

  /** One round loses no tile and invents none. */
  lemma {:induction false} AbsorbKeepsMembers<T>(merge: Merger, palette: seq<int>, members: seq<T>, rest: seq<Group<T>>)
    ensures var a := Absorb(merge, palette, members, rest);
      multiset(a.members) + multiset(AllMembers(a.left)) == multiset(members) + multiset(AllMembers(rest))
    decreases |rest|
  {
    if |rest| > 0 {
      var merged := merge(palette, rest[0].palette);
      assert AllMembers(rest) == rest[0].members + AllMembers(rest[1..]);
      if |merged| < 17 {
        AbsorbMergesFront(merge, palette, members, rest, merged);
        AbsorbKeepsMembers(merge, merged, members + rest[0].members, rest[1..]);
      } else {
        AbsorbSkipsFront(merge, palette, members, rest, merged);
        AbsorbKeepsMembers(merge, palette, members, rest[1..]);
        var a := Absorb(merge, palette, members, rest[1..]);
        var left := [rest[0]] + a.left;
        assert left[1..] == a.left;
        assert AllMembers(left) == rest[0].members + AllMembers(a.left);
        calc {
          multiset(a.members) + multiset(AllMembers(left));
          multiset(a.members) + (multiset(rest[0].members) + multiset(AllMembers(a.left)));
          (multiset(a.members) + multiset(AllMembers(a.left))) + multiset(rest[0].members);
          (multiset(members) + multiset(AllMembers(rest[1..]))) + multiset(rest[0].members);
          multiset(members) + multiset(AllMembers(rest));
        }
      }
    }
  }

  /** The groups one round leaves for later are groups it was given. */
  lemma {:induction false} AbsorbLeavesGiven<T>(merge: Merger, palette: seq<int>, members: seq<T>, rest: seq<Group<T>>)
    ensures var a := Absorb(merge, palette, members, rest);
      forall t :: 0 <= t < |a.left| ==> a.left[t] in rest
    decreases |rest|
  {
    if |rest| > 0 {
      var merged := merge(palette, rest[0].palette);
      if |merged| < 17 {
        AbsorbMergesFront(merge, palette, members, rest, merged);
        AbsorbLeavesGiven(merge, merged, members + rest[0].members, rest[1..]);
        assert forall x :: x in rest[1..] ==> x in rest;
      } else {
        AbsorbSkipsFront(merge, palette, members, rest, merged);
        AbsorbLeavesGiven(merge, palette, members, rest[1..]);
        var a := Absorb(merge, palette, members, rest[1..]);
        var left := [rest[0]] + a.left;
        forall t | 0 <= t < |left| ensures left[t] in rest {
          if t > 0 {
            assert left[t] == a.left[t - 1];
            assert a.left[t - 1] in rest[1..];
          }
        }
      }
    }
  }

  /** One round either absorbs nothing or ends with at most 16 colours. */
  lemma {:induction false} AbsorbCap<T>(merge: Merger, palette: seq<int>, members: seq<T>, rest: seq<Group<T>>)
    ensures var a := Absorb(merge, palette, members, rest);
      (a.palette == palette && a.members == members) || |a.palette| <= 16
    decreases |rest|
  {
    if |rest| > 0 {
      var merged := merge(palette, rest[0].palette);
      if |merged| < 17 {
        AbsorbCap(merge, merged, members + rest[0].members, rest[1..]);
      } else {
        AbsorbCap(merge, palette, members, rest[1..]);
      }
    }
  }

  /**
   * One round's palette holds every colour of its starting palette and of
   * every group it absorbed, and its tiles include theirs.
   */
  lemma {:induction false} AbsorbCovers<T>(merge: Merger, palette: seq<int>, members: seq<T>, rest: seq<Group<T>>)
    requires MergesAsUnion(merge)
    ensures var a := Absorb(merge, palette, members, rest);
      Elems(palette) <= Elems(a.palette) && multiset(members) <= multiset(a.members)
      && (forall j :: 0 <= j < |rest| ==>
            (rest[j] in a.left
             || (Elems(rest[j].palette) <= Elems(a.palette) && multiset(rest[j].members) <= multiset(a.members))))
    decreases |rest|
  {
    if |rest| > 0 {
      var merged := merge(palette, rest[0].palette);
      if |merged| < 17 {
        AbsorbCovers(merge, merged, members + rest[0].members, rest[1..]);
        assert forall j :: 1 <= j < |rest| ==> rest[j] == rest[1..][j - 1];
      } else {
        AbsorbCovers(merge, palette, members, rest[1..]);
        assert forall j :: 1 <= j < |rest| ==> rest[j] == rest[1..][j - 1];
      }
    }
  }

  /** `mergePalettes` loses no tile and invents none: every tile keeps its multiplicity. */
  lemma {:induction false} MergeAllKeepsMembers<T>(merge: Merger, groups: seq<Group<T>>)
    ensures multiset(AllMembers(MergeAll(merge, groups))) == multiset(AllMembers(groups))
    decreases |groups|
  {
    if |groups| > 0 {
      var a := Absorb(merge, groups[0].palette, groups[0].members, groups[1..]);
      AbsorbKeepsMembers(merge, groups[0].palette, groups[0].members, groups[1..]);
      MergeAllKeepsMembers(merge, a.left);
      var r := MergeAll(merge, groups);
      assert r[1..] == MergeAll(merge, a.left);
    }
  }

  /**
   * Every output palette has at most 16 colours, unless it is an input group
   * that could absorb nothing and is passed through unchanged.
   */
  lemma {:induction false} MergeAllCap<T>(merge: Merger, groups: seq<Group<T>>)
    ensures var r := MergeAll(merge, groups);
      forall k :: 0 <= k < |r| ==> |r[k].palette| <= 16 || r[k] in groups
    decreases |groups|
  {
    if |groups| > 0 {
      var a := Absorb(merge, groups[0].palette, groups[0].members, groups[1..]);
      AbsorbCap(merge, groups[0].palette, groups[0].members, groups[1..]);
      AbsorbLeavesGiven(merge, groups[0].palette, groups[0].members, groups[1..]);
      MergeAllCap(merge, a.left);
      var r := MergeAll(merge, groups);
      assert r[1..] == MergeAll(merge, a.left);
      forall k | 1 <= k < |r| && |r[k].palette| > 16 ensures r[k] in groups {
        assert r[k] == MergeAll(merge, a.left)[k - 1];
        var t :| 0 <= t < |a.left| && a.left[t] == r[k];
        assert a.left[t] in groups[1..];
      }
    }
  }

  /**
   * Every input group ends up inside some output group: the output palette
   * holds all its colours and the output group all its tiles.
   */
  lemma {:induction false} MergeAllCovers<T>(merge: Merger, groups: seq<Group<T>>, j: int)
    requires MergesAsUnion(merge) && 0 <= j < |groups|
    ensures exists k ::
              0 <= k < |MergeAll(merge, groups)|
              && Elems(groups[j].palette) <= Elems(MergeAll(merge, groups)[k].palette)
              && multiset(groups[j].members) <= multiset(MergeAll(merge, groups)[k].members)
  {
    var k := MergeAllCover(merge, groups, j);
  }

  /** The output group that `MergeAllCovers` promises. */
  lemma {:induction false} MergeAllCover<T>(merge: Merger, groups: seq<Group<T>>, j: int) returns (k: int)
    requires MergesAsUnion(merge) && 0 <= j < |groups|
    ensures 0 <= k < |MergeAll(merge, groups)|
    ensures Elems(groups[j].palette) <= Elems(MergeAll(merge, groups)[k].palette)
    ensures multiset(groups[j].members) <= multiset(MergeAll(merge, groups)[k].members)
    decreases |groups|
  {
    var a := Absorb(merge, groups[0].palette, groups[0].members, groups[1..]);
    var r := MergeAll(merge, groups);
    AbsorbCovers(merge, groups[0].palette, groups[0].members, groups[1..]);
    if j == 0 || groups[j] !in a.left {
      assert j > 0 ==> groups[j] == groups[1..][j - 1];
      assert r[0] == Group(a.palette, a.members);
      k := 0;
    } else {
      var t :| 0 <= t < |a.left| && a.left[t] == groups[j];
      AbsorbLeavesGiven(merge, groups[0].palette, groups[0].members, groups[1..]);
      var k' := MergeAllCover(merge, a.left, t);
      assert r[k' + 1] == MergeAll(merge, a.left)[k'];
      k := k' + 1;
    }
  }

  /** With a canonical merge, canonical input palettes give canonical output palettes. */
  lemma {:induction false} MergeAllCanonical<T>(merge: Merger, groups: seq<Group<T>>)
    requires MergesCanonically(merge)
    requires forall j :: 0 <= j < |groups| ==> Distinct(groups[j].palette) && PaletteSorted(groups[j].palette)
    ensures forall k :: 0 <= k < |MergeAll(merge, groups)| ==>
      Distinct(MergeAll(merge, groups)[k].palette) && PaletteSorted(MergeAll(merge, groups)[k].palette)
    decreases |groups|
  {
    if |groups| > 0 {
      var a := Absorb(merge, groups[0].palette, groups[0].members, groups[1..]);
      AbsorbCanonical(merge, groups[0].palette, groups[0].members, groups[1..]);
      AbsorbLeavesGiven(merge, groups[0].palette, groups[0].members, groups[1..]);
      forall t | 0 <= t < |a.left| ensures Distinct(a.left[t].palette) && PaletteSorted(a.left[t].palette) {
        assert a.left[t] in groups;
      }
      MergeAllCanonical(merge, a.left);
      var r := MergeAll(merge, groups);
      assert r[1..] == MergeAll(merge, a.left);
      assert forall k :: 1 <= k < |r| ==> r[k] == MergeAll(merge, a.left)[k - 1];
    }
  }

  lemma {:induction false} AbsorbCanonical<T>(merge: Merger, palette: seq<int>, members: seq<T>, rest: seq<Group<T>>)
    requires MergesCanonically(merge) && Distinct(palette) && PaletteSorted(palette)
    ensures var a := Absorb(merge, palette, members, rest);
      Distinct(a.palette) && PaletteSorted(a.palette)
    decreases |rest|
  {
    if |rest| > 0 {
      var merged := merge(palette, rest[0].palette);
      if |merged| < 17 {
        AbsorbCanonical(merge, merged, members + rest[0].members, rest[1..]);
      } else {
        AbsorbCanonical(merge, palette, members, rest[1..]);
      }
    }
  }
}
