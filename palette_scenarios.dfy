/**
 * The palette scenarios both generations are pinned to: one tile of black
 * and red, and three tiles (black and red; black, white and red; black,
 * red and green) whose palettes merge into one.
 */
module PaletteScenarios {
  import opened Wrappers
  import opened Color
  import opened Seqs
  import opened Tiles
  import opened PaletteSort
  import opened PaletteGroups
  import opened PaletteLookup
  import opened PalettesToEmit
  import opened PalettesLegacy

  const BlackRed: seq<Rgba> := [BLACK24, RED24]
  const BlackWhiteRed: seq<Rgba> := [BLACK24, WHITE24, RED24]
  const BlackRedGreen: seq<Rgba> := [BLACK24, RED24, GREEN24]

  const P1: seq<int> := [TRANSPARENT16, BLACK16, RED16]
  const P2: seq<int> := [TRANSPARENT16, WHITE16, BLACK16, RED16]
  const P3: seq<int> := [TRANSPARENT16, GREEN16, BLACK16, RED16]
  const P12: seq<int> := [TRANSPARENT16, WHITE16, BLACK16, RED16]
  const P123: seq<int> := [TRANSPARENT16, GREEN16, WHITE16, BLACK16, RED16]

  /** An image's canonical palette, from the words of its pixels. */
  lemma {:induction false} CanonicalIs(pixels: seq<Rgba>, words: seq<int>, p: seq<int>)
    requires |words| == |pixels| && forall k :: 0 <= k < |pixels| ==> ConvertTo16BitColor(pixels[k]) == words[k]
    requires Distinct(p) && PaletteSorted(p)
    requires forall c :: c in p <==> c == TRANSPARENT16 || c in words
    ensures CanonicalPalette(pixels) == p
  {
    var c := CanonicalPalette(pixels);
    forall x ensures x in Elems(c) <==> x in Elems(p) {
      CanonicalPaletteCovers(pixels, x);
      if x in words {
        var k :| 0 <= k < |words| && words[k] == x;
        assert pixels[k] in pixels;
      }
      if exists px :: px in pixels && ConvertTo16BitColor(px) == x {
        var px :| px in pixels && ConvertTo16BitColor(px) == x;
        var k :| 0 <= k < |pixels| && pixels[k] == px;
        assert words[k] == x;
      }
    }
    CanonicalUnique(c, p);
  }

  /** The merge of two palettes, from the colours the result holds. */
  lemma {:induction false} MergeIs(a: seq<int>, b: seq<int>, p: seq<int>)
    requires Distinct(p) && PaletteSorted(p)
    requires forall c :: c in p <==> c in a || c in b
    ensures MergeTwoPalettes(a, b) == p
  {
    var m := MergeTwoPalettes(a, b);
    assert Elems(m) == Elems(p);
    CanonicalUnique(m, p);
  }

  lemma {:induction false} BlackRedPalette(a: Rgba, b: Rgba)
    requires ConvertTo16BitColor(a) == BLACK16 && ConvertTo16BitColor(b) == RED16
    ensures CanonicalPalette([a, b]) == P1
  {
    CanonicalIs([a, b], [BLACK16, RED16], P1);
  }

  lemma {:induction false} BlackWhiteRedPalette(a: Rgba, b: Rgba, d: Rgba)
    requires ConvertTo16BitColor(a) == BLACK16 && ConvertTo16BitColor(b) == WHITE16 && ConvertTo16BitColor(d) == RED16
    ensures CanonicalPalette([a, b, d]) == P2
  {
    CanonicalIs([a, b, d], [BLACK16, WHITE16, RED16], P2);
  }

  lemma {:induction false} BlackRedGreenPalette(a: Rgba, b: Rgba, d: Rgba)
    requires ConvertTo16BitColor(a) == BLACK16 && ConvertTo16BitColor(b) == RED16 && ConvertTo16BitColor(d) == GREEN16
    ensures CanonicalPalette([a, b, d]) == P3
  {
    CanonicalIs([a, b, d], [BLACK16, RED16, GREEN16], P3);
  }

  lemma {:induction false} ScenarioPalette1()
    ensures CanonicalPalette(BlackRed) == P1
  {
    BlackWord();
    RedWord();
    BlackRedPalette(BLACK24, RED24);
  }

  lemma {:induction false} ScenarioPalette2()
    ensures CanonicalPalette(BlackWhiteRed) == P2
  {
    BlackWord();
    WhiteWord();
    RedWord();
    BlackWhiteRedPalette(BLACK24, WHITE24, RED24);
  }

  lemma {:induction false} ScenarioPalette3()
    ensures CanonicalPalette(BlackRedGreen) == P3
  {
    BlackWord();
    RedWord();
    GreenWord();
    BlackRedGreenPalette(BLACK24, RED24, GREEN24);
  }

  lemma {:induction false} ScenarioMerge12()
    ensures MergeTwoPalettes(P1, P2) == P12
  {
    MergeIs(P1, P2, P12);
  }

  lemma {:induction false} ScenarioMerge123()
    ensures MergeTwoPalettes(P12, P3) == P123
  {
    MergeIs(P12, P3, P123);
  }

  /** Filing one more entry whose palette no group has opens a group at the end. */
  lemma {:induction false} GroupedSnocNew<T>(entries: seq<Option<Entry<T>>>, groups: seq<Group<T>>, e: Entry<T>, p: seq<int>)
    requires Grouped(entries) == groups && CanonicalPalette(e.pixels) == p
    requires forall j :: 0 <= j < |groups| ==> groups[j].palette != p
    ensures Grouped(entries + [Some(e)]) == groups + [Group(p, [e.member])]
  {
    assert (entries + [Some(e)])[..|entries|] == entries;
  }

  /** The entry of the tile at position `n`. */
  function At(n: nat, pixels: seq<Rgba>): Entry<nat> {
    Entry(n, pixels)
  }

  /** The filter in front of `buildPaletteMap` takes one more emitting tile under its position. */
  lemma {:induction false} EmitEntriesSnoc(cells: seq<Option<Tile>>, t: Tile)
    requires Emits(t)
    ensures EmitEntries(cells + [Some(t)]) == EmitEntries(cells) + [Some(At(|cells|, t.canvasSource))]
  {
    assert (cells + [Some(t)])[..|cells|] == cells;
  }

  /** A single entry makes one group with its canonical palette. */
  lemma {:induction false} OneEntryMerged<T>(e: Entry<T>, p: seq<int>)
    requires CanonicalPalette(e.pixels) == p
    ensures MergeAll(MergeTwoPalettes, Grouped([Some(e)])) == [Group(p, [e.member])]
  {
    OneGrouped(e, p);
  }

  /** A single entry makes one group with its canonical palette. */
  lemma {:induction false} OneGrouped<T>(e: Entry<T>, p: seq<int>)
    requires CanonicalPalette(e.pixels) == p
    ensures Grouped([Some(e)]) == [Group(p, [e.member])]
  {
    assert [Some(e)][..0] == [];
  }

  /** Two entries whose canonical palettes differ make one group each, in order. */
  lemma {:induction false} TwoApartGrouped<T>(e1: Entry<T>, e2: Entry<T>, p1: seq<int>, p2: seq<int>)
    requires CanonicalPalette(e1.pixels) == p1 && CanonicalPalette(e2.pixels) == p2
    requires p1 != p2
    ensures Grouped([Some(e1), Some(e2)]) == [Group(p1, [e1.member]), Group(p2, [e2.member])]
  {
    var d := [Some(e1), Some(e2)];
    var g1 := [Group(p1, [e1.member])];
    assert d[..1] == [Some(e1)];
    OneGrouped(e1, p1);
    assert GroupWithPalette(g1, p2).None?;
    assert g1 + [Group(p2, [e2.member])] == [Group(p1, [e1.member]), Group(p2, [e2.member])];
  }

  /** Appending to a two-element display gives the three-element display. */
  lemma {:induction false} SnocTwo<A>(a: A, b: A, c: A)
    ensures [a, b] + [c] == [a, b, c]
  {
  }

  /** A third entry whose palette neither group of the first two has opens a third group. */
  lemma {:induction false} ThirdApartGrouped<T>(e1: Entry<T>, e2: Entry<T>, e3: Entry<T>, p1: seq<int>, p2: seq<int>, p3: seq<int>)
    requires Grouped([Some(e1), Some(e2)]) == [Group(p1, [e1.member]), Group(p2, [e2.member])]
    requires CanonicalPalette(e3.pixels) == p3 && p1 != p3 && p2 != p3
    ensures Grouped([Some(e1), Some(e2), Some(e3)])
         == [Group(p1, [e1.member]), Group(p2, [e2.member]), Group(p3, [e3.member])]
  {
    var g := [Group(p1, [e1.member]), Group(p2, [e2.member])];
    forall j | 0 <= j < |g| ensures g[j].palette != p3 {
      if j == 1 {
        assert g[1].palette == p2;
      }
    }
    GroupedSnocNew([Some(e1), Some(e2)], g, e3, p3);
    SnocTwo(Some(e1), Some(e2), Some(e3));
    SnocTwo(Group(p1, [e1.member]), Group(p2, [e2.member]), Group(p3, [e3.member]));
  }

  /** Three entries whose canonical palettes all differ make one group each, in order. */
  lemma {:induction false} ThreeApartGrouped<T>(e1: Entry<T>, e2: Entry<T>, e3: Entry<T>, p1: seq<int>, p2: seq<int>, p3: seq<int>)
    requires CanonicalPalette(e1.pixels) == p1 && CanonicalPalette(e2.pixels) == p2 && CanonicalPalette(e3.pixels) == p3
    requires p1 != p2 && p1 != p3 && p2 != p3
    ensures Grouped([Some(e1), Some(e2), Some(e3)])
         == [Group(p1, [e1.member]), Group(p2, [e2.member]), Group(p3, [e3.member])]
  {
    TwoApartGrouped(e1, e2, p1, p2);
    ThirdApartGrouped(e1, e2, e3, p1, p2, p3);
  }

  /** The same three groups, stated position by position. */
  lemma {:induction false} ThreeApartPositions<T>(e1: Entry<T>, e2: Entry<T>, e3: Entry<T>, p1: seq<int>, p2: seq<int>, p3: seq<int>)
    requires CanonicalPalette(e1.pixels) == p1 && CanonicalPalette(e2.pixels) == p2 && CanonicalPalette(e3.pixels) == p3
    requires p1 != p2 && p1 != p3 && p2 != p3
    ensures |Grouped([Some(e1), Some(e2), Some(e3)])| == 3
    ensures Grouped([Some(e1), Some(e2), Some(e3)])[0] == Group(p1, [e1.member])
    ensures Grouped([Some(e1), Some(e2), Some(e3)])[1] == Group(p2, [e2.member])
    ensures Grouped([Some(e1), Some(e2), Some(e3)])[2] == Group(p3, [e3.member])
  {
    ThreeApartGrouped(e1, e2, e3, p1, p2, p3);
  }

  /** The three scenario palettes are pairwise different. */
  lemma {:induction false} ScenarioPalettesDiffer()
    ensures P1 != P2 && P1 != P3 && P2 != P3
  {
    assert P2[1] != P3[1];
  }

  /** Three entries with the scenario images make one group each. */
  lemma {:induction false} ScenarioEntriesGrouped<T>(e1: Entry<T>, e2: Entry<T>, e3: Entry<T>)
    requires e1.pixels == BlackRed && e2.pixels == BlackWhiteRed && e3.pixels == BlackRedGreen
    ensures Grouped([Some(e1), Some(e2), Some(e3)])
         == [Group(P1, [e1.member]), Group(P2, [e2.member]), Group(P3, [e3.member])]
  {
    ScenarioPalette1();
    ScenarioPalette2();
    ScenarioPalette3();
    ScenarioPalettesDiffer();
    ThreeApartGrouped(e1, e2, e3, P1, P2, P3);
  }

  /** Three groups merge into one when the union of the first two takes the third. */
  lemma {:induction false} ThreeGroupsMerged<T>(merge: Merger, grouped: seq<Group<T>>, p12: seq<int>, p123: seq<int>)
    requires |grouped| == 3
    requires merge(grouped[0].palette, grouped[1].palette) == p12 && |p12| < 17
    requires merge(p12, grouped[2].palette) == p123 && |p123| < 17
    ensures MergeAll(merge, grouped) == [Group(p123, grouped[0].members + grouped[1].members + grouped[2].members)]
  {
    AbsorbMergesFront(merge, grouped[0].palette, grouped[0].members, grouped[1..], p12);
    assert grouped[1..][1..] == grouped[2..];
    AbsorbMergesFront(merge, p12, grouped[0].members + grouped[1].members, grouped[2..], p123);
    assert grouped[2..][1..] == [];
  }

  /** Three one-member groups that merge together give one group of the three members in order. */
  lemma {:induction false} SingletonsMerged<T>(merge: Merger, g: seq<Group<T>>, m1: T, m2: T, m3: T, p12: seq<int>, p123: seq<int>)
    requires |g| == 3 && g[0].members == [m1] && g[1].members == [m2] && g[2].members == [m3]
    requires merge(g[0].palette, g[1].palette) == p12 && |p12| < 17
    requires merge(p12, g[2].palette) == p123 && |p123| < 17
    ensures MergeAll(merge, g) == [Group(p123, [m1, m2, m3])]
  {
    ThreeGroupsMerged(merge, g, p12, p123);
    assert g[0].members + g[1].members + g[2].members == [m1, m2, m3];
  }

  /**
   * Three entries with the scenario images end up in one group holding
   * all five colours.
   */
  lemma {:induction false} ScenarioEntriesMerged<T>(e1: Entry<T>, e2: Entry<T>, e3: Entry<T>)
    requires e1.pixels == BlackRed && e2.pixels == BlackWhiteRed && e3.pixels == BlackRedGreen
    ensures MergeAll(MergeTwoPalettes, Grouped([Some(e1), Some(e2), Some(e3)]))
         == [Group(P123, [e1.member, e2.member, e3.member])]
  {
    ScenarioPalette1();
    ScenarioPalette2();
    ScenarioPalette3();
    ScenarioPalettesDiffer();
    ScenarioMerge12();
    ScenarioMerge123();
    ThreeApartPositions(e1, e2, e3, P1, P2, P3);
    SingletonsMerged(MergeTwoPalettes, Grouped([Some(e1), Some(e2), Some(e3)]), e1.member, e2.member, e3.member, P12, P123);
  }

  /** A palette of `16 - n` colours is padded with `n` blacks. */
  lemma {:induction false} PaddedWith(p: seq<int>, n: nat)
    requires |p| + n == 16
    ensures Pad16(p) == p + seq(n, _ => BLACK16)
  {
    var q := p + seq(n, _ => BLACK16);
    forall i | 0 <= i < 16 ensures Pad16(p)[i] == q[i] {
      if i < |p| {
        assert Pad16(p)[..|p|][i] == p[i];
      }
    }
  }

  /** With one group holding only tile `t`, the newer code gives cell 0 that group's palette. */
  lemma {:induction false} AssignedSingle(t: Tile, p: seq<int>, start: int)
    ensures AssignedCell(Some(t), 0, [Group(p, [0])], start)
         == Ok(Some(t.(palette := Some(p), paletteIndex := Some(start))))
  {
    assert FindGroup([Group(p, [0])], 0) == Some(0);
  }

  /** With one group holding only source `s`, the older code gives it that group's palette. */
  lemma {:induction false} WithPaletteSingle(s: Tile, p: seq<int>, start: int)
    ensures WithPalette(s, [Group(p, [s])], start) == Ok(s.(palette := Some(p), paletteIndex := Some(start)))
  {
    assert FindGroup([Group(p, [s])], s) == Some(0);
  }

  /** The single-tile input of the newer code. */
  const OneTile: seq<Option<Tile>> := [Some(FreshTile(BlackRed))]

  lemma {:induction false} OneTileEntries()
    ensures EmitEntries(OneTile) == [Some(At(0, BlackRed))]
  {
    EmitEntriesSnoc([], FreshTile(BlackRed));
    assert [] + [Some(FreshTile(BlackRed))] == OneTile;
  }

  /**
   * One black-and-red tile: one group, whose palette is transparency,
   * black and red, padded with thirteen blacks in the bank, and the tile
   * gets that palette unpadded at index `start`.
   */
  lemma {:induction false} OneTileScenario(start: int)
    ensures MergedGroups(OneTile) == [Group(P1, [0])]
    ensures AssignedCell(OneTile[0], 0, [Group(P1, [0])], start)
         == Ok(Some(FreshTile(BlackRed).(palette := Some(P1), paletteIndex := Some(start))))
    ensures AllAssignable(OneTile, [Group(P1, [0])], start)
    ensures PadAll(Palettes([Group(P1, [0])])) == Ok([P1 + seq(13, _ => BLACK16)])
  {
    OneTileEntries();
    ScenarioPalette1();
    OneEntryMerged(At(0, BlackRed), P1);
    AssignedSingle(FreshTile(BlackRed), P1, start);
    PaddedWith(P1, 13);
    assert Palettes([Group(P1, [0])]) == [P1];
    assert PadAll([P1]).value == [Pad16(P1)];
  }

  /** The three-tile input of the newer code. */
  const ThreeTiles: seq<Option<Tile>> :=
    [Some(FreshTile(BlackRed)), Some(FreshTile(BlackWhiteRed)), Some(FreshTile(BlackRedGreen))]

  lemma {:induction false} ThreeTilesEntries()
    ensures EmitEntries(ThreeTiles) == [Some(At(0, BlackRed)), Some(At(1, BlackWhiteRed)), Some(At(2, BlackRedGreen))]
  {
    var t1, t2, t3 := FreshTile(BlackRed), FreshTile(BlackWhiteRed), FreshTile(BlackRedGreen);
    EmitEntriesSnoc([], t1);
    assert [] + [Some(t1)] == [Some(t1)];
    EmitEntriesSnoc([Some(t1)], t2);
    assert [Some(t1)] + [Some(t2)] == [Some(t1), Some(t2)];
    EmitEntriesSnoc([Some(t1), Some(t2)], t3);
    assert [Some(t1), Some(t2)] + [Some(t3)] == ThreeTiles;
  }

  /**
   * Three tiles whose palettes fit together: they end up in one group,
   * whose palette is transparency, green, white, black and red, and the
   * bank's first palette is that followed by eleven blacks.
   */
  lemma {:induction false} ThreeTilesScenario()
    ensures MergedGroups(ThreeTiles) == [Group(P123, [0, 1, 2])]
    ensures PadAll(Palettes([Group(P123, [0, 1, 2])])) == Ok([P123 + seq(11, _ => BLACK16)])
  {
    ThreeTilesEntries();
    ScenarioEntriesMerged(At(0, BlackRed), At(1, BlackWhiteRed), At(2, BlackRedGreen));
    PaddedWith(P123, 11);
    assert Palettes([Group(P123, [0, 1, 2])]) == [P123];
    assert PadAll([P123]).value == [Pad16(P123)];
  }

  /** The sources of the older code's scenarios. */
  const Source1: Tile := FreshTile(BlackRed)
  const Source2: Tile := FreshTile(BlackWhiteRed)
  const Source3: Tile := FreshTile(BlackRedGreen)

  lemma {:induction false} OneSourceFlattened<G>(results: seq<SourceResult<G>>, gen: G)
    requires results == [SourceResult([[[Source1]]], gen)]
    ensures AllSources(results) == [Source1]
  {
    assert results[..0] == [];
    assert Flat2([[[Source1]]]) == Flatten([[Source1]]) + Flat2([]);
    assert Flatten([[Source1]]) == [Source1] + Flatten([]);
  }

  /**
   * One generator with one black-and-red source: the source's record has
   * transparency, black and red as its palette and `start` as its index,
   * and the bank is that palette padded with thirteen blacks.
   */
  lemma {:induction false} OneSourceScenario<G>(results: seq<SourceResult<G>>, gen: G, start: int, out: seq<GeneratorWithSources<G>>)
    requires results == [SourceResult([[[Source1]]], gen)]
    requires Relabels(results, out, LegacyMerged(AllSources(results)), start)
    ensures LegacyMerged(AllSources(results)) == [Group(P1, [Source1])]
    ensures out[0].sourcesWithPalettes[0][0][0] == Source1.(palette := Some(P1), paletteIndex := Some(start))
    ensures forall bank :: LegacyBank(Palettes(LegacyMerged(AllSources(results))), bank)
                       <==> bank == [P1 + seq(13, _ => BLACK16)]
  {
    OneSourceFlattened(results, gen);
    ScenarioPalette1();
    assert SourceEntries([Source1]) == [Some(Entry(Source1, BlackRed))];
    OneEntryMerged(Entry(Source1, BlackRed), P1);
    var merged := [Group(P1, [Source1])];
    assert HoldsCell(results, 0, 0, 0, 0);
    WithPaletteSingle(Source1, P1, start);
    PaddedWith(P1, 13);
    assert Palettes(merged) == [P1];
  }

  lemma {:induction false} ThreeSourcesMerged()
    ensures LegacyMerged([Source1, Source2, Source3]) == [Group(P123, [Source1, Source2, Source3])]
  {
    var e1, e2, e3 := Entry(Source1, BlackRed), Entry(Source2, BlackWhiteRed), Entry(Source3, BlackRedGreen);
    assert SourceEntries([Source1, Source2, Source3]) == [Some(e1), Some(e2), Some(e3)];
    ScenarioEntriesMerged(e1, e2, e3);
  }

  lemma {:induction false} ThreeSourcesFlattened<G>(results: seq<SourceResult<G>>, gen1: G, gen2: G)
    requires results == [SourceResult([[[Source1, Source2]]], gen1), SourceResult([[[Source3]]], gen2)]
    ensures AllSources(results) == [Source1, Source2, Source3]
  {
    assert results[..1][..0] == [];
    assert AllSources(results[..1]) == Flat2(results[0].sources);
    assert Flat2([[[Source1, Source2]]]) == Flatten([[Source1, Source2]]) + Flat2([]);
    assert Flatten([[Source1, Source2]]) == [Source1, Source2] + Flatten([]);
    assert Flat2([[[Source3]]]) == Flatten([[Source3]]) + Flat2([]);
    assert Flatten([[Source3]]) == [Source3] + Flatten([]);
  }

  /**
   * Two generators, the first with a black-and-red and a
   * black-white-and-red source, the second with a black-red-and-green
   * one: all three share one palette, so the first source's record has
   * transparency, green, white, black and red as its palette.
   */
  lemma {:induction false} ThreeSourcesScenario<G>(results: seq<SourceResult<G>>, gen1: G, gen2: G, start: int,
                                out: seq<GeneratorWithSources<G>>)
    requires results == [SourceResult([[[Source1, Source2]]], gen1), SourceResult([[[Source3]]], gen2)]
    requires Relabels(results, out, LegacyMerged(AllSources(results)), start)
    ensures LegacyMerged(AllSources(results)) == [Group(P123, [Source1, Source2, Source3])]
    ensures out[0].sourcesWithPalettes[0][0][0].palette == Some(P123)
  {
    ThreeSourcesFlattened(results, gen1, gen2);
    ThreeSourcesMerged();
    assert HoldsCell(results, 0, 0, 0, 0);
  }
}
