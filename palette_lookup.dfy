/**
 * What the palette assignment needs to know about a merged palette map:
 * which group holds a tile (`findPalette`), which tiles a map holds at
 * all, and that every tile of a group fits that group's palette. Both
 * generations of the palette code share these facts, and the padding to
 * 16 colours.
 */
module PaletteLookup {
  import opened Wrappers
  import opened Color
  import opened Seqs
  import opened Palette24
  import opened PaletteSort
  import opened PaletteGroups

  /** `findPalette`: the position of the first group whose tiles include `t`. */
  function FindGroup<T(==)>(groups: seq<Group<T>>, t: T): (r: Option<nat>)
    ensures r.Some? ==> r.value < |groups| && t in groups[r.value].members
    ensures r.Some? ==> forall j :: 0 <= j < r.value ==> t !in groups[j].members
    ensures r.None? <==> forall j :: 0 <= j < |groups| ==> t !in groups[j].members
  {
    if |groups| == 0 then None
    else if t in groups[0].members then Some(0)
    else
      var r := FindGroup(groups[1..], t);
      assert forall j :: 1 <= j < |groups| ==> groups[j] == groups[1..][j - 1];
      if r.Some? then Some(r.value + 1) else None
  }

  /** `findPalette` finds a group exactly when the map holds the tile somewhere. */
  lemma {:induction false} FindGroupFinds<T>(groups: seq<Group<T>>, t: T)
    ensures FindGroup(groups, t).Some? <==> t in AllMembers(groups)
  {
    if |groups| > 0 {
      FindGroupFinds(groups[1..], t);
      assert AllMembers(groups) == groups[0].members + AllMembers(groups[1..]);
    }
  }

  /** The tiles of the non-null entries, in order. */
  function EntryMembers<T>(entries: seq<Option<Entry<T>>>): (r: seq<T>)
  {
    if |entries| == 0 then []
    else
      var ms := EntryMembers(entries[..|entries| - 1]);
      match entries[|entries| - 1]
      case None => ms
      case Some(e) => ms + [e.member]
  }

  lemma {:induction false} AllMembersAppend<T>(groups: seq<Group<T>>, g: Group<T>)
    ensures AllMembers(groups + [g]) == AllMembers(groups) + g.members
  {
    if |groups| > 0 {
      assert (groups + [g])[1..] == groups[1..] + [g];
      AllMembersAppend(groups[1..], g);
    }
  }

  /** Replacing one group trades its tiles for the new group's. */
  lemma {:induction false} AllMembersUpdate<T>(groups: seq<Group<T>>, k: int, g: Group<T>)
    requires 0 <= k < |groups|
    ensures multiset(AllMembers(groups[k := g])) + multiset(groups[k].members)
         == multiset(AllMembers(groups)) + multiset(g.members)
  {
    var r := groups[k := g];
    assert AllMembers(r) == r[0].members + AllMembers(r[1..]);
    assert AllMembers(groups) == groups[0].members + AllMembers(groups[1..]);
    if k > 0 {
      var tail := groups[1..];
      assert r[1..] == tail[k - 1 := g];
      AllMembersUpdate(tail, k - 1, g);
      calc {
        multiset(AllMembers(r)) + multiset(groups[k].members);
        multiset(groups[0].members) + (multiset(AllMembers(tail[k - 1 := g])) + multiset(tail[k - 1].members));
        multiset(groups[0].members) + (multiset(AllMembers(tail)) + multiset(g.members));
        multiset(AllMembers(groups)) + multiset(g.members);
      }
    } else {
      assert r[1..] == groups[1..];
    }
  }

  /** Filing one tile adds exactly that tile to the map. */
  lemma {:induction false} AddToGroupsMembers<T>(groups: seq<Group<T>>, m: T, p: seq<int>)
    ensures multiset(AllMembers(AddToGroups(groups, m, p))) == multiset(AllMembers(groups)) + multiset{m}
  {
    var k := GroupWithPalette(groups, p);
    if k.Some? {
      var ms := groups[k.value].members;
      var r := groups[k.value := Group(p, ms + [m])];
      assert AddToGroups(groups, m, p) == r;
      AllMembersUpdate(groups, k.value, Group(p, ms + [m]));
      assert multiset(ms + [m]) == multiset(ms) + multiset{m};
      var a, b, c := multiset(AllMembers(r)), multiset(AllMembers(groups)), multiset(ms);
      assert a + c == b + multiset{m} + c;
      assert forall x :: (a + c)[x] == a[x] + c[x] && (b + multiset{m} + c)[x] == (b + multiset{m})[x] + c[x];
      assert a == b + multiset{m};
    } else {
      AllMembersAppend(groups, Group(p, [m]));
    }
  }

  /** `buildPaletteMap` files every non-null tile exactly once and invents none. */
  lemma {:induction false} GroupedKeepsMembers<T>(entries: seq<Option<Entry<T>>>)
    ensures multiset(AllMembers(Grouped(entries))) == multiset(EntryMembers(entries))
  {
    if |entries| > 0 {
      var init := entries[..|entries| - 1];
      GroupedKeepsMembers(init);
      match entries[|entries| - 1]
      case None =>
      case Some(e) =>
        assert EntryMembers(entries) == EntryMembers(init) + [e.member];
        AddToGroupsMembers(Grouped(init), e.member, CanonicalPalette(e.pixels));
    }
  }

  /** Every tile filed under a palette comes from an entry with that canonical palette. */
  lemma {:induction false} MembersWithSound<T>(entries: seq<Option<Entry<T>>>, p: seq<int>, x: T)
    requires x in MembersWith(entries, p)
    ensures exists j :: 0 <= j < |entries| && entries[j].Some? && entries[j].value.member == x
                        && CanonicalPalette(entries[j].value.pixels) == p
  {
    var j := MembersWithSource(entries, p, x);
  }

  /** The position of an entry that `MembersWithSound` promises. */
  lemma {:induction false} MembersWithSource<T>(entries: seq<Option<Entry<T>>>, p: seq<int>, x: T) returns (j: int)
    requires x in MembersWith(entries, p)
    ensures 0 <= j < |entries| && entries[j].Some? && entries[j].value.member == x
    ensures CanonicalPalette(entries[j].value.pixels) == p
  {
    var n := |entries| - 1;
    var init := entries[..n];
    if entries[n].Some? && x !in MembersWith(init, p) {
      j := n;
    } else {
      j := MembersWithSource(init, p, x);
      assert entries[j] == init[j];
    }
  }

  /**
   * Every tile of a `buildPaletteMap` group comes from an entry whose
   * canonical palette is the group's palette.
   */
  lemma {:induction false} GroupedSound<T>(entries: seq<Option<Entry<T>>>, k: int, x: T)
    requires 0 <= k < |Grouped(entries)| && x in Grouped(entries)[k].members
    ensures exists j :: 0 <= j < |entries| && entries[j].Some? && entries[j].value.member == x
                        && CanonicalPalette(entries[j].value.pixels) == Grouped(entries)[k].palette
  {
    GroupedIsGrouping(entries);
    MembersWithSound(entries, Grouped(entries)[k].palette, x);
  }

  /**
   * Every tile a round ends with was the starting group's or comes from a
   * group it absorbed, whose colours the round's palette holds.
   */
  lemma {:induction false} AbsorbSound<T>(merge: Merger, palette: seq<int>, members: seq<T>, rest: seq<Group<T>>, x: T)
    requires MergesAsUnion(merge)
    requires x in Absorb(merge, palette, members, rest).members
    ensures x in members
         || exists j :: 0 <= j < |rest| && x in rest[j].members
                        && Elems(rest[j].palette) <= Elems(Absorb(merge, palette, members, rest).palette)
    decreases |rest|
  {
    if |rest| > 0 {
      var merged := merge(palette, rest[0].palette);
      var a := Absorb(merge, palette, members, rest);
      assert forall j :: 1 <= j < |rest| ==> rest[j] == rest[1..][j - 1];
      if |merged| < 17 {
        AbsorbMergesFront(merge, palette, members, rest, merged);
        AbsorbSound(merge, merged, members + rest[0].members, rest[1..], x);
        AbsorbCovers(merge, merged, members + rest[0].members, rest[1..]);
        if x !in members && x in rest[0].members {
          assert Elems(rest[0].palette) <= Elems(merged) <= Elems(a.palette);
        }
      } else {
        AbsorbSkipsFront(merge, palette, members, rest, merged);
        AbsorbSound(merge, palette, members, rest[1..], x);
      }
    }
  }

  /**
   * Every tile of a merged group comes from an input group whose colours
   * the merged palette holds: no tile is moved to a palette that lacks
   * its colours.
   */
  lemma {:induction false} MergeAllSound<T>(merge: Merger, groups: seq<Group<T>>, k: int, x: T)
    requires MergesAsUnion(merge)
    requires 0 <= k < |MergeAll(merge, groups)| && x in MergeAll(merge, groups)[k].members
    ensures exists j :: 0 <= j < |groups| && x in groups[j].members
                        && Elems(groups[j].palette) <= Elems(MergeAll(merge, groups)[k].palette)
    decreases |groups|
  {
    assert |groups| > 0;
    var a := Absorb(merge, groups[0].palette, groups[0].members, groups[1..]);
    var r := MergeAll(merge, groups);
    if k == 0 {
      assert forall j :: 1 <= j < |groups| ==> groups[j] == groups[1..][j - 1];
      AbsorbSound(merge, groups[0].palette, groups[0].members, groups[1..], x);
      AbsorbCovers(merge, groups[0].palette, groups[0].members, groups[1..]);
      if x in groups[0].members {
        assert Elems(groups[0].palette) <= Elems(r[0].palette);
      }
    } else {
      assert r[k] == MergeAll(merge, a.left)[k - 1];
      MergeAllSound(merge, a.left, k - 1, x);
      AbsorbLeavesGiven(merge, groups[0].palette, groups[0].members, groups[1..]);
      assert forall tt :: 0 <= tt < |Absorb(merge, groups[0].palette, groups[0].members, groups[1..]).left| ==> Absorb(merge, groups[0].palette, groups[0].members, groups[1..]).left[tt] in groups[1..];
      var t :| 0 <= t < |a.left| && x in a.left[t].members
               && Elems(a.left[t].palette) <= Elems(MergeAll(merge, a.left)[k - 1].palette);
      assert a.left[t] in groups[1..];
      var j :| 0 <= j < |groups| - 1 && groups[1..][j] == a.left[t];
      assert groups[j + 1] == a.left[t];
    }
  }

  /**
   * The canonical palette of an image holds the 16-bit colour of every
   * pixel, and nothing but those and transparency.
   */
  lemma {:induction false} CanonicalPaletteCovers(pixels: seq<Rgba>, c: int)
    ensures c in CanonicalPalette(pixels)
        <==> c == TRANSPARENT16 || exists px :: px in pixels && ConvertTo16BitColor(px) == c
  {
    var p24 := Palette24Of(pixels);
    CanonicalElems(pixels);
    ConvertedHolds(p24, c);
    MagentaWord();
    assert MAGENTA24 in Elems(p24);
    assert forall px :: px in pixels ==> px in Elems(p24);
  }

  lemma {:induction false} CanonicalElems(pixels: seq<Rgba>)
    ensures Elems(CanonicalPalette(pixels)) == Elems(ConvertTo16BitPalette(Palette24Of(pixels)))
  {
  }

  /** A converted palette holds exactly the words of its colours. */
  lemma {:induction false} ConvertedHolds(p: seq<Rgba>, c: int)
    ensures c in Elems(ConvertTo16BitPalette(p)) <==> exists x :: x in Elems(p) && ConvertTo16BitColor(x) == c
  {
    var q := ConvertTo16BitPalette(p);
    if c in Elems(q) {
      var j :| 0 <= j < |q| && q[j] == c;
      assert p[j] in Elems(p);
    }
    if exists x :: x in Elems(p) && ConvertTo16BitColor(x) == c {
      var x :| x in Elems(p) && ConvertTo16BitColor(x) == c;
      var j :| 0 <= j < |p| && p[j] == x;
      assert q[j] in Elems(q);
    }
  }

  /**
   * `p` can serve an image: it holds transparency and the 16-bit colour of
   * every pixel, without repeats and in canonical order.
   */
  predicate Serves(p: seq<int>, pixels: seq<Rgba>) {
    TRANSPARENT16 in p && Distinct(p) && PaletteSorted(p)
    && forall px :: px in pixels ==> ConvertTo16BitColor(px) in p
  }

  /**
   * Every tile of a merged group comes from an entry whose image the
   * group's palette serves.
   */
  lemma {:induction false} MergedGroupServes<T>(entries: seq<Option<Entry<T>>>, grouped: seq<Group<T>>, merged: seq<Group<T>>, n: int, x: T)
    requires grouped == Grouped(entries) && merged == MergeAll(MergeTwoPalettes, grouped)
    requires 0 <= n < |merged| && x in merged[n].members
    ensures exists k :: 0 <= k < |entries| && entries[k].Some? && entries[k].value.member == x
                        && Serves(merged[n].palette, entries[k].value.pixels)
  {
    MergeTwoPalettesMerges();
    MergeAllSound(MergeTwoPalettes, grouped, n, x);
    var j :| 0 <= j < |grouped| && x in grouped[j].members
             && Elems(grouped[j].palette) <= Elems(merged[n].palette);
    GroupedSound(entries, j, x);
    var k :| 0 <= k < |entries| && entries[k].Some? && entries[k].value.member == x
             && CanonicalPalette(entries[k].value.pixels) == grouped[j].palette;
    CoversByElems(entries[k].value.pixels, grouped[j].palette, merged[n].palette);
    GroupedCanonical(entries);
    MergeAllCanonical(MergeTwoPalettes, grouped);
  }

  /** A palette holding every colour of an image's canonical palette holds its pixels' colours. */
  lemma {:induction false} CoversByElems(pixels: seq<Rgba>, canonical: seq<int>, p: seq<int>)
    requires canonical == CanonicalPalette(pixels) && Elems(canonical) <= Elems(p)
    ensures TRANSPARENT16 in p
    ensures forall px :: px in pixels ==> ConvertTo16BitColor(px) in p
  {
    forall px | px in pixels ensures ConvertTo16BitColor(px) in p {
      CanonicalPaletteCovers(pixels, ConvertTo16BitColor(px));
      assert ConvertTo16BitColor(px) in Elems(canonical);
    }
    CanonicalPaletteCovers(pixels, TRANSPARENT16);
    assert TRANSPARENT16 in Elems(canonical);
  }

  /** Every palette of a `buildPaletteMap` result is in canonical order. */
  lemma {:induction false} GroupedCanonical<T>(entries: seq<Option<Entry<T>>>)
    ensures forall j :: 0 <= j < |Grouped(entries)| ==>
      Distinct(Grouped(entries)[j].palette) && PaletteSorted(Grouped(entries)[j].palette)
  {
    GroupedIsGrouping(entries);
    forall j | 0 <= j < |Grouped(entries)|
      ensures Distinct(Grouped(entries)[j].palette) && PaletteSorted(Grouped(entries)[j].palette)
    {
      var x := Grouped(entries)[j].palette;
      assert x == Palettes(Grouped(entries))[j];
      assert x in Elems(Uniq(EntryPalettes(entries)));
      EntryPalettesCanonical(entries, x);
    }
  }

  lemma {:induction false} EntryPalettesCanonical<T>(entries: seq<Option<Entry<T>>>, x: seq<int>)
    requires x in EntryPalettes(entries)
    ensures Distinct(x) && PaletteSorted(x)
  {
    var init := entries[..|entries| - 1];
    match entries[|entries| - 1]
    case None => EntryPalettesCanonical(init, x);
    case Some(e) =>
      if x != CanonicalPalette(e.pixels) {
        assert EntryPalettes(entries) == EntryPalettes(init) + [CanonicalPalette(e.pixels)];
        EntryPalettesCanonical(init, x);
      }
  }

  /** A palette of at most 16 colours, filled up to 16 with black. */
  function Pad16(p: seq<int>): (r: seq<int>)
    requires |p| <= 16
    ensures |r| == 16 && r[..|p|] == p
    ensures forall i :: |p| <= i < 16 ==> r[i] == BLACK16
  {
    p + seq(16 - |p|, _ => BLACK16)
  }
}
