/**
 * The palette step of the older pipeline (`determinePalettes`): every
 * generator's sources are flattened into one list, grouped by canonical
 * palette and merged under the 16-colour cap, and every source is
 * replaced by a new record carrying its merged palette and that
 * palette's slot, inside an unchanged nesting of images, rows and cells.
 *
 * A source is known here by its value. Two equal sources have the same
 * image and so the same canonical palette, so they always share a group
 * and a lookup by value finds the group a lookup by object would.
 */
module PalettesLegacy {
  import opened Wrappers
  import opened Color
  import opened Seqs
  import opened Tiles
  import opened PaletteSort
  import opened PaletteGroups
  import opened PaletteLookup

  /** What one generator produced: sources by image, row and column, and the generator itself. */
  datatype SourceResult<G> = SourceResult(sources: seq<seq<seq<Tile>>>, generator: G)

  /** The same generator with every source replaced by its record with a palette. */
  datatype GeneratorWithSources<G> = GeneratorWithSources(generator: G, sourcesWithPalettes: seq<seq<seq<Tile>>>)

  /** What `determinePalettes` returns. */
  datatype PalettesResult<G> = PalettesResult(generatorResults: seq<GeneratorWithSources<G>>, finalPalettes: seq<seq<int>>)

  /** `flat(2)` on one generator's sources: images, then rows, then cells, in order. */
  function Flat2(images: seq<seq<seq<Tile>>>): (r: seq<Tile>)
  {
    if |images| == 0 then [] else Flatten(images[0]) + Flat2(images[1..])
  }

  /** The flattened sources of every generator, in generator order. */
  function AllSources<G>(results: seq<SourceResult<G>>): (r: seq<Tile>)
  {
    if |results| == 0 then []
    else AllSources(results[..|results| - 1]) + Flat2(results[|results| - 1].sources)
  }

  /** Every cell of a generator's nesting. */
  predicate HoldsCell<G>(results: seq<SourceResult<G>>, g: int, i: int, y: int, x: int) {
    0 <= g < |results| && 0 <= i < |results[g].sources|
    && 0 <= y < |results[g].sources[i]| && 0 <= x < |results[g].sources[i][y]|
  }

  lemma {:induction false} FlattenHolds<T>(rows: seq<seq<T>>, y: int, x: int)
    requires 0 <= y < |rows| && 0 <= x < |rows[y]|
    ensures rows[y][x] in Flatten(rows)
  {
    if y > 0 {
      FlattenHolds(rows[1..], y - 1, x);
    }
  }

  lemma {:induction false} Flat2Holds(images: seq<seq<seq<Tile>>>, i: int, y: int, x: int)
    requires 0 <= i < |images| && 0 <= y < |images[i]| && 0 <= x < |images[i][y]|
    ensures images[i][y][x] in Flat2(images)
  {
    if i == 0 {
      FlattenHolds(images[0], y, x);
    } else {
      Flat2Holds(images[1..], i - 1, y, x);
    }
  }

  /** The flattening loses no source: every cell of every generator is in the list. */
  lemma {:induction false} AllSourcesHold<G>(results: seq<SourceResult<G>>, g: int, i: int, y: int, x: int)
    requires HoldsCell(results, g, i, y, x)
    ensures results[g].sources[i][y][x] in AllSources(results)
  {
    var n := |results| - 1;
    if g == n {
      Flat2Holds(results[n].sources, i, y, x);
    } else {
      assert results[..n][g] == results[g];
      AllSourcesHold(results[..n], g, i, y, x);
    }
  }

  /** Every source of the flattened list comes from some generator's cell. */
  lemma {:induction false} AllSourcesFrom<G>(results: seq<SourceResult<G>>, s: Tile)
    requires s in AllSources(results)
    ensures exists g, i, y, x :: HoldsCell(results, g, i, y, x) && results[g].sources[i][y][x] == s
  {
    var n := |results| - 1;
    if s in AllSources(results[..n]) {
      AllSourcesFrom(results[..n], s);
      var g, i, y, x :| HoldsCell(results[..n], g, i, y, x) && results[..n][g].sources[i][y][x] == s;
      assert results[..n][g] == results[g];
      assert HoldsCell(results, g, i, y, x);
    } else {
      var i, y, x := FromFlat2(results[n].sources, s);
      assert HoldsCell(results, n, i, y, x);
    }
  }

  lemma {:induction false} FromFlat2(images: seq<seq<seq<Tile>>>, s: Tile) returns (i: int, y: int, x: int)
    requires s in Flat2(images)
    ensures 0 <= i < |images| && 0 <= y < |images[i]| && 0 <= x < |images[i][y]|
    ensures images[i][y][x] == s
  {
    if s in Flatten(images[0]) {
      i := 0;
      y, x := FromFlatten(images[0], s);
    } else {
      i, y, x := FromFlat2(images[1..], s);
      i := i + 1;
    }
  }

  lemma {:induction false} FromFlatten<T>(rows: seq<seq<T>>, s: T) returns (y: int, x: int)
    requires s in Flatten(rows)
    ensures 0 <= y < |rows| && 0 <= x < |rows[y]| && rows[y][x] == s
  {
    if s in rows[0] {
      y := 0;
      x :| 0 <= x < |rows[0]| && rows[0][x] == s;
    } else {
      y, x := FromFlatten(rows[1..], s);
      y := y + 1;
    }
  }

  /** The sources as `buildPaletteMap` sees them: every one present, under its own image. */
  function SourceEntries(all: seq<Tile>): (r: seq<Option<Entry<Tile>>>)
    ensures |r| == |all|
    ensures forall k :: 0 <= k < |all| ==> r[k] == Some(Entry(all[k], all[k].canvasSource))
  {
    seq(|all|, k requires 0 <= k < |all| => Some(Entry(all[k], all[k].canvasSource)))
  }

  lemma {:induction false} SourceEntriesMembers(all: seq<Tile>)
    ensures EntryMembers(SourceEntries(all)) == all
  {
    if |all| > 0 {
      var n := |all| - 1;
      assert SourceEntries(all)[..n] == SourceEntries(all[..n]);
      SourceEntriesMembers(all[..n]);
      assert all == all[..n] + [all[n]];
    }
  }

  /** The merged palette map `determinePalettes` builds from the flattened sources. */
  function LegacyMerged(all: seq<Tile>): seq<Group<Tile>> {
    MergeAll(MergeTwoPalettes, Grouped(SourceEntries(all)))
  }

  /**
   * One source's record: `findPalette`'s group and that group's position
   * in the palette list, offset by `start`. A source no group holds makes
   * `findPalette` dereference `undefined`.
   */
  function WithPalette(s: Tile, merged: seq<Group<Tile>>, start: int): (r: Result<Tile>)
  {
    match FindGroup(merged, s)
    case None => Err(NoPaletteGroup)
    case Some(g) => Ok(s.(palette := Some(merged[g].palette), paletteIndex := Some(g + start)))
  }

  /**
   * `out` is `results` with every source replaced by its record: same
   * generators, same nesting, each cell the record of the cell it stands for.
   */
  ghost predicate Relabels<G>(results: seq<SourceResult<G>>, out: seq<GeneratorWithSources<G>>,
                        merged: seq<Group<Tile>>, start: int) {
    |out| == |results|
    && (forall g :: 0 <= g < |results| ==>
          out[g].generator == results[g].generator
          && |out[g].sourcesWithPalettes| == |results[g].sources|
          && (forall i :: 0 <= i < |results[g].sources| ==>
                |out[g].sourcesWithPalettes[i]| == |results[g].sources[i]|
                && (forall y :: 0 <= y < |results[g].sources[i]| ==>
                      |out[g].sourcesWithPalettes[i][y]| == |results[g].sources[i][y]|)))
    && (forall g, i, y, x :: HoldsCell(results, g, i, y, x) ==>
          WithPalette(results[g].sources[i][y][x], merged, start) == Ok(out[g].sourcesWithPalettes[i][y][x]))
  }

  /** Every cell of every generator is a key of `m`. */
  ghost predicate KeysCover<G>(results: seq<SourceResult<G>>, m: map<Tile, Tile>) {
    forall g, i, y, x :: HoldsCell(results, g, i, y, x) ==> results[g].sources[i][y][x] in m
  }

  /** The nested `map`s that look every source up in the record map. */
  function Rebuild<G>(results: seq<SourceResult<G>>, m: map<Tile, Tile>): (out: seq<GeneratorWithSources<G>>)
    requires KeysCover(results, m)
    ensures |out| == |results|
    ensures forall g :: 0 <= g < |results| ==> out[g].generator == results[g].generator
    ensures forall g :: 0 <= g < |results| ==> |out[g].sourcesWithPalettes| == |results[g].sources|
    ensures forall g, i :: 0 <= g < |results| && 0 <= i < |results[g].sources| ==>
              |out[g].sourcesWithPalettes[i]| == |results[g].sources[i]|
    ensures forall g, i, y :: 0 <= g < |results| && 0 <= i < |results[g].sources| && 0 <= y < |results[g].sources[i]| ==>
              |out[g].sourcesWithPalettes[i][y]| == |results[g].sources[i][y]|
    ensures forall g, i, y, x :: HoldsCell(results, g, i, y, x) ==>
              out[g].sourcesWithPalettes[i][y][x] == m[results[g].sources[i][y][x]]
  {
    seq(|results|, g requires 0 <= g < |results| =>
      GeneratorWithSources(results[g].generator,
        seq(|results[g].sources|, i requires 0 <= i < |results[g].sources| =>
          seq(|results[g].sources[i]|, y requires 0 <= y < |results[g].sources[i]| =>
            seq(|results[g].sources[i][y]|, x requires 0 <= x < |results[g].sources[i][y]| =>
              assert HoldsCell(results, g, i, y, x);
              m[results[g].sources[i][y][x]])))))
  }

  /**
   * `assignPalettesForGenerators`: records every source in a map, then
   * rebuilds every generator's nesting from it. It throws at the first
   * source no group holds.
   */
  method AssignPalettesForGenerators<G>(results: seq<SourceResult<G>>, all: seq<Tile>,
                                        merged: seq<Group<Tile>>, start: int)
    returns (r: Result<seq<GeneratorWithSources<G>>>)
    requires forall g, i, y, x :: HoldsCell(results, g, i, y, x) ==> results[g].sources[i][y][x] in all
    ensures r.Ok? <==> forall k :: 0 <= k < |all| ==> WithPalette(all[k], merged, start).Ok?
    ensures r.Err? ==> r.error == NoPaletteGroup
    ensures r.Ok? ==> Relabels(results, r.value, merged, start)
  {
    var m: map<Tile, Tile> := map[];
    var k := 0;
    while k < |all|
      invariant 0 <= k <= |all|
      invariant forall j :: 0 <= j < k ==> all[j] in m && WithPalette(all[j], merged, start).Ok?
      invariant forall s :: s in m ==> WithPalette(s, merged, start) == Ok(m[s])
    {
      var s := all[k];
      var found := FindGroup(merged, s);
      if found.None? {
        return Err(NoPaletteGroup);
      }
      var g := found.value;
      m := m[s := s.(palette := Some(merged[g].palette), paletteIndex := Some(g + start))];
      k := k + 1;
    }
    r := Ok(Rebuild(results, m));
  }

  /**
   * The older `padTo16Values`: a palette of exactly 16 colours comes back
   * as it is, a shorter one is filled up with black, and a longer one
   * comes back unchanged instead of failing.
   */
  method PadTo16ValuesLegacy(palette: seq<int>) returns (r: seq<int>)
    ensures |palette| <= 16 ==> r == Pad16(palette)
    ensures |palette| > 16 ==> r == palette
  {
    if |palette| == 16 {
      return palette;
    }
    r := palette;
    while |r| < 16
      invariant |palette| <= 16 ==> |r| <= 16
      invariant |r| >= |palette| && r[..|palette|] == palette
      invariant forall j :: |palette| <= j < |r| ==> r[j] == BLACK16
      invariant |palette| > 16 ==> r == palette
      decreases 16 - |r|
    {
      r := r + [BLACK16];
    }
  }

  /** The bank the older code returns: every merged palette, padded where it is short. */
  predicate LegacyBank(palettes: seq<seq<int>>, bank: seq<seq<int>>) {
    |bank| == |palettes|
    && forall k :: 0 <= k < |palettes| ==>
         (|palettes[k]| <= 16 ==> bank[k] == Pad16(palettes[k]))
         && (|palettes[k]| > 16 ==> bank[k] == palettes[k])
  }

  /**
   * `determinePalettes`: flattens the sources, builds and merges the
   * palette map, relabels every source and pads the palettes. It never
   * throws, every source gets a record, and the bank is the merged
   * palettes in order.
   */
  method DeterminePalettes<G>(results: seq<SourceResult<G>>, start: int) returns (r: Result<PalettesResult<G>>)
    ensures r.Ok?
    ensures Relabels(results, r.value.generatorResults, LegacyMerged(AllSources(results)), start)
    ensures LegacyBank(Palettes(LegacyMerged(AllSources(results))), r.value.finalPalettes)
  {
    var all := CollectSources(results);
    var entries := SourceEntries(all);
    var grouped := BuildPaletteMap(entries);
    var merged := MergePalettes(grouped);
    assert merged == LegacyMerged(all);
    var notPadded := Palettes(merged);
    forall g, i, y, x | HoldsCell(results, g, i, y, x) ensures results[g].sources[i][y][x] in all {
      AllSourcesHold(results, g, i, y, x);
    }
    forall k | 0 <= k < |all| ensures WithPalette(all[k], merged, start).Ok? {
      EverySourceFound(all, merged, all[k]);
    }
    var generatorResults := AssignPalettesForGenerators(results, all, merged, start);
    var bank := PadLegacyBank(notPadded);
    r := Ok(PalettesResult(generatorResults.value, bank));
  }

  /** The generator loop that pushes every generator's `flat(2)` sources. */
  method CollectSources<G>(results: seq<SourceResult<G>>) returns (all: seq<Tile>)
    ensures all == AllSources(results)
  {
    all := [];
    for n := 0 to |results|
      invariant all == AllSources(results[..n])
    {
      assert results[..n + 1][..n] == results[..n];
      all := all + Flat2(results[n].sources);
    }
    assert results[..|results|] == results;
  }

  /** `finalPalettesNotYetPadded.map(padTo16Values)`. */
  method PadLegacyBank(palettes: seq<seq<int>>) returns (bank: seq<seq<int>>)
    ensures LegacyBank(palettes, bank)
  {
    bank := [];
    for k := 0 to |palettes|
      invariant LegacyBank(palettes[..k], bank)
    {
      var p := PadTo16ValuesLegacy(palettes[k]);
      bank := bank + [p];
    }
    assert palettes[..|palettes|] == palettes;
  }

  /**
   * Every flattened source is held by the merged map and is served by its
   * group's palette, so `findPalette` never dereferences `undefined` and
   * the palette index check never throws.
   */
  lemma {:induction false} EverySourceFound(all: seq<Tile>, merged: seq<Group<Tile>>, s: Tile)
    requires merged == LegacyMerged(all) && s in all
    ensures FindGroup(merged, s).Some?
    ensures Serves(merged[FindGroup(merged, s).value].palette, s.canvasSource)
  {
    LegacyMergedKeeps(all, merged, s);
    FindGroupFinds(merged, s);
    var n := FindGroup(merged, s).value;
    MergedGroupServes(SourceEntries(all), Grouped(SourceEntries(all)), merged, n, s);
  }

  /** Grouping and merging lose no source. */
  lemma {:induction false} LegacyMergedKeeps(all: seq<Tile>, merged: seq<Group<Tile>>, s: Tile)
    requires merged == LegacyMerged(all) && s in all
    ensures s in multiset(AllMembers(merged))
  {
    var entries := SourceEntries(all);
    SourceEntriesMembers(all);
    GroupedKeepsMembers(entries);
    MergeAllKeepsMembers(MergeTwoPalettes, Grouped(entries));
    assert s in multiset(EntryMembers(entries));
  }
}
