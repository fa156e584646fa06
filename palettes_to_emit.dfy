/**
 * The palette step of the newer pipeline (`determinePalettesToEmit`): the
 * tiles that emit their palette are grouped by canonical palette, the
 * groups are merged under the 16-colour cap, every non-null tile is told
 * its merged palette and that palette's slot, and the palettes are
 * returned padded to 16 colours.
 *
 * The tiles are an array of cells, `None` for a null cell, and a tile is
 * known by its position in the array.
 */
module PalettesToEmit {
  import opened Wrappers
  import opened Color
  import opened Seqs
  import opened Tiles
  import opened PaletteSort
  import opened PaletteGroups
  import opened PaletteLookup

  /** A tile takes part in palette building unless it opts out; `emitPalette` defaults to true. */
  predicate Emits(t: Tile) {
    t.emitPalette != Some(false)
  }

  /**
   * The filter in front of `buildPaletteMap`: null cells stay, tiles that
   * opt out go, and every other tile enters under its position.
   */
  function EmitEntries(cells: seq<Option<Tile>>): (r: seq<Option<Entry<nat>>>)
  {
    if |cells| == 0 then []
    else
      var n: nat := |cells| - 1;
      var init := EmitEntries(cells[..n]);
      match cells[n]
      case None => init + [None]
      case Some(t) =>
        var e: Entry<nat> := Entry(n, t.canvasSource);
        if Emits(t) then init + [Some(e)] else init
  }

  /** Every entry the filter lets through is an emitting tile, under its own position and image. */
  lemma {:induction false} EmitEntriesSound(cells: seq<Option<Tile>>, j: int)
    requires 0 <= j < |EmitEntries(cells)| && EmitEntries(cells)[j].Some?
    ensures EmitEntries(cells)[j].value.member < |cells|
    ensures cells[EmitEntries(cells)[j].value.member].Some?
    ensures Emits(cells[EmitEntries(cells)[j].value.member].value)
    ensures EmitEntries(cells)[j].value.pixels == cells[EmitEntries(cells)[j].value.member].value.canvasSource
  {
    var n := |cells| - 1;
    var init := EmitEntries(cells[..n]);
    if j < |init| {
      assert EmitEntries(cells)[j] == init[j];
      EmitEntriesSound(cells[..n], j);
    }
  }

  /** The filter keeps exactly the non-null tiles that emit their palette. */
  lemma {:induction false} EmitEntriesMembers(cells: seq<Option<Tile>>, i: int)
    ensures i in EntryMembers(EmitEntries(cells))
        <==> 0 <= i < |cells| && cells[i].Some? && Emits(cells[i].value)
  {
    if |cells| > 0 {
      var n: nat := |cells| - 1;
      var init := EmitEntries(cells[..n]);
      EmitEntriesMembers(cells[..n], i);
      match cells[n]
      case None =>
        assert (init + [None])[..|init|] == init;
      case Some(t) =>
        if Emits(t) {
          var e: Entry<nat> := Entry(n, t.canvasSource);
          assert (init + [Some(e)])[..|init|] == init;
        }
    }
  }

  /** The merged palette map `determinePalettesToEmit` builds from the cells. */
  function MergedGroups(cells: seq<Option<Tile>>): seq<Group<nat>> {
    MergeAll(MergeTwoPalettes, Grouped(EmitEntries(cells)))
  }

  /**
   * What `assignPalettes` does to the cell at position `i`: a null cell is
   * left alone, a tile takes the palette of the first group holding it and
   * that palette's position plus `start`, and a tile no group holds is an
   * error. The final palettes are the groups' palettes in order, so the
   * palette's `indexOf` is the group's position.
   */
  function AssignedCell(cell: Option<Tile>, i: nat, groups: seq<Group<nat>>, start: int): Result<Option<Tile>> {
    match cell
    case None => Ok(None)
    case Some(t) =>
      match FindGroup(groups, i)
      case None => Err(NoPaletteGroup)
      case Some(g) => Ok(Some(t.(palette := Some(groups[g].palette), paletteIndex := Some(g + start))))
  }

  /** Every cell of `before` can be assigned. */
  predicate AllAssignable(before: seq<Option<Tile>>, groups: seq<Group<nat>>, start: int) {
    forall i :: 0 <= i < |before| ==> AssignedCell(before[i], i, groups, start).Ok?
  }

  /** `after` is `before` with every cell assigned. */
  predicate AllAssigned(before: seq<Option<Tile>>, after: seq<Option<Tile>>, groups: seq<Group<nat>>, start: int) {
    |after| == |before|
    && forall i :: 0 <= i < |before| ==> AssignedCell(before[i], i, groups, start) == Ok(after[i])
  }

  /**
   * `after` is what `assignPalettes` leaves when it throws at cell `f`: the
   * cells before `f` are assigned and the rest are untouched.
   */
  predicate StoppedAt(before: seq<Option<Tile>>, after: seq<Option<Tile>>, f: int, groups: seq<Group<nat>>, start: int) {
    |after| == |before| && 0 <= f < |before|
    && AssignedCell(before[f], f, groups, start).Err?
    && (forall i :: 0 <= i < f ==> AssignedCell(before[i], i, groups, start) == Ok(after[i]))
    && (forall i :: f <= i < |before| ==> after[i] == before[i])
  }

  /**
   * `assignPalettes`: walks the cells in order and writes each tile's
   * palette and palette index, throwing at the first tile no group holds.
   */
  method AssignPalettes(tiles: array<Option<Tile>>, groups: seq<Group<nat>>, start: int) returns (outcome: Outcome)
    modifies tiles
    ensures outcome.Pass? <==> AllAssignable(old(tiles[..]), groups, start)
    ensures outcome.Pass? ==> AllAssigned(old(tiles[..]), tiles[..], groups, start)
    ensures outcome.Fail? ==> outcome.error == NoPaletteGroup
                              && exists f :: StoppedAt(old(tiles[..]), tiles[..], f, groups, start)
  {
    ghost var before := tiles[..];
    var i := 0;
    while i < tiles.Length
      invariant 0 <= i <= tiles.Length
      invariant forall j :: 0 <= j < i ==> AssignedCell(before[j], j, groups, start) == Ok(tiles[j])
      invariant forall j :: i <= j < tiles.Length ==> tiles[j] == before[j]
    {
      match tiles[i] {
        case None =>
        case Some(t) =>
          var g := FindGroup(groups, i);
          if g.None? {
            assert StoppedAt(before, tiles[..], i, groups, start);
            return Fail(NoPaletteGroup);
          }
          tiles[i] := Some(t.(palette := Some(groups[g.value].palette), paletteIndex := Some(g.value + start)));
      }
      i := i + 1;
    }
    return Pass;
  }

  /**
   * `padTo16Values`: a palette of more than 16 colours is an error; a
   * shorter one is filled up with black to exactly 16.
   */
  method PadTo16Values(palette: seq<int>) returns (r: Result<seq<int>>)
    ensures r.Err? <==> |palette| > 16
    ensures r.Err? ==> r.error == PaletteTooLarge
    ensures r.Ok? ==> |r.value| == 16 && r.value[..|palette|] == palette
    ensures r.Ok? ==> forall i :: |palette| <= i < 16 ==> r.value[i] == BLACK16
  {
    if |palette| > 16 {
      return Err(PaletteTooLarge);
    }
    if |palette| == 16 {
      return Ok(palette);
    }
    var newPalette := palette;
    while |newPalette| < 16
      invariant |palette| <= |newPalette| <= 16
      invariant newPalette[..|palette|] == palette
      invariant forall i :: |palette| <= i < |newPalette| ==> newPalette[i] == BLACK16
      decreases 16 - |newPalette|
    {
      newPalette := newPalette + [BLACK16];
    }
    return Ok(newPalette);
  }

  /** `finalPalettes.map(padTo16Values)`: the first palette that is too large ends it. */
  function PadAll(ps: seq<seq<int>>): (r: Result<seq<seq<int>>>)
    ensures r.Ok? <==> forall k :: 0 <= k < |ps| ==> |ps[k]| <= 16
    ensures r.Err? ==> r.error == PaletteTooLarge
    ensures r.Ok? ==> |r.value| == |ps| && forall k :: 0 <= k < |ps| ==> r.value[k] == Pad16(ps[k])
  {
    if |ps| == 0 then Ok([])
    else if |ps[0]| > 16 then Err(PaletteTooLarge)
    else
      var rest := PadAll(ps[1..]);
      assert forall k :: 1 <= k < |ps| ==> ps[k] == ps[1..][k - 1];
      match rest
      case Err(e) => Err(e)
      case Ok(tail) => Ok([Pad16(ps[0])] + tail)
  }

  /**
   * `determinePalettesToEmit`: group and merge the emitting tiles, assign
   * every non-null tile its palette, and return the padded palettes.
   */
  method DeterminePalettesToEmit(tiles: array<Option<Tile>>, start: int) returns (r: Result<seq<seq<int>>>)
    modifies tiles
    ensures AllAssignable(old(tiles[..]), MergedGroups(old(tiles[..])), start)
            ==> AllAssigned(old(tiles[..]), tiles[..], MergedGroups(old(tiles[..])), start)
                && r == PadAll(Palettes(MergedGroups(old(tiles[..]))))
    ensures !AllAssignable(old(tiles[..]), MergedGroups(old(tiles[..])), start)
            ==> r == Err(NoPaletteGroup)
                && exists f :: StoppedAt(old(tiles[..]), tiles[..], f, MergedGroups(old(tiles[..])), start)
  {
    ghost var before := tiles[..];
    var entries := EmitEntries(tiles[..]);
    var paletteMap := BuildPaletteMap(entries);
    var merged := MergePalettes(paletteMap);
    assert merged == MergedGroups(before);
    var finalPalettes := Palettes(merged);
    var outcome := AssignPalettes(tiles, merged, start);
    if outcome.Fail? {
      return Err(outcome.error);
    }
    r := PadPalettes(finalPalettes);
  }

  /** The padding loop of `determinePalettesToEmit`: `padTo16Values` on each palette in turn. */
  method PadPalettes(finalPalettes: seq<seq<int>>) returns (r: Result<seq<seq<int>>>)
    ensures r == PadAll(finalPalettes)
  {
    var padded: seq<seq<int>> := [];
    for k := 0 to |finalPalettes|
      invariant |padded| == k
      invariant forall j :: 0 <= j < k ==> |finalPalettes[j]| <= 16 && padded[j] == Pad16(finalPalettes[j])
    {
      var p := PadTo16Values(finalPalettes[k]);
      if p.Err? {
        return Err(p.error);
      }
      assert p.value == Pad16(finalPalettes[k]);
      padded := padded + [p.value];
    }
    assert PadAll(finalPalettes).Ok?;
    assert PadAll(finalPalettes).value == padded;
    return Ok(padded);
  }

  /** The merged map holds exactly the non-null tiles that emit their palette. */
  lemma {:induction false} MergedHolds(cells: seq<Option<Tile>>, i: int)
    ensures i in AllMembers(MergedGroups(cells))
        <==> 0 <= i < |cells| && cells[i].Some? && Emits(cells[i].value)
  {
    var entries := EmitEntries(cells);
    GroupedKeepsMembers(entries);
    MergeAllKeepsMembers(MergeTwoPalettes, Grouped(entries));
    EmitEntriesMembers(cells, i);
    assert i in AllMembers(MergedGroups(cells)) <==> i in multiset(AllMembers(MergedGroups(cells)));
    assert i in EntryMembers(entries) <==> i in multiset(EntryMembers(entries));
  }

  /**
   * A tile that opts out of palette building is in no group, so assigning
   * it a palette throws: opting out is not a way to keep a palette.
   */
  lemma {:induction false} OptedOutTileFails(cells: seq<Option<Tile>>, merged: seq<Group<nat>>, i: int, start: int)
    requires merged == MergedGroups(cells)
    requires 0 <= i < |cells| && cells[i].Some? && !Emits(cells[i].value)
    ensures AssignedCell(cells[i], i, merged, start) == Err(NoPaletteGroup)
  {
    MergedHolds(cells, i);
    FindGroupFinds(merged, i);
  }

  /**
   * A tile that emits its palette is assigned the palette of the first
   * merged group holding it, at position `n`, and the index `n + start`,
   * and that palette serves the tile's image.
   */
  lemma {:induction false} EmittingTileAssigned(cells: seq<Option<Tile>>, merged: seq<Group<nat>>, i: int, start: int)
    requires merged == MergedGroups(cells)
    requires 0 <= i < |cells| && cells[i].Some? && Emits(cells[i].value)
    ensures FindGroup(merged, i).Some?
      && AssignedCell(cells[i], i, merged, start)
         == Ok(Some(cells[i].value.(palette := Some(merged[FindGroup(merged, i).value].palette),
                                    paletteIndex := Some(FindGroup(merged, i).value + start))))
      && Serves(merged[FindGroup(merged, i).value].palette, cells[i].value.canvasSource)
  {
    MergedHolds(cells, i);
    AssignedWhenHeld(cells[i], i, merged, start);
    MergedPaletteServes(cells, merged, FindGroup(merged, i).value, i);
  }

  lemma {:induction false} AssignedWhenHeld(cell: Option<Tile>, i: nat, groups: seq<Group<nat>>, start: int)
    requires cell.Some? && i in AllMembers(groups)
    ensures FindGroup(groups, i).Some?
    ensures AssignedCell(cell, i, groups, start)
         == Ok(Some(cell.value.(palette := Some(groups[FindGroup(groups, i).value].palette),
                                paletteIndex := Some(FindGroup(groups, i).value + start))))
  {
    FindGroupFinds(groups, i);
  }

  /** Every tile of a merged group is served by the group's palette. */
  lemma {:induction false} MergedPaletteServes(cells: seq<Option<Tile>>, merged: seq<Group<nat>>, n: int, i: nat)
    requires merged == MergedGroups(cells)
    requires 0 <= n < |merged| && i in merged[n].members
    ensures i < |cells| && cells[i].Some?
    ensures Serves(merged[n].palette, cells[i].value.canvasSource)
  {
    var entries := EmitEntries(cells);
    MergedGroupServes(entries, Grouped(entries), merged, n, i);
    var k :| 0 <= k < |entries| && entries[k].Some? && entries[k].value.member == i
             && Serves(merged[n].palette, entries[k].value.pixels);
    EmitEntriesSound(cells, k);
  }

  /**
   * Assigning palettes succeeds on every cell exactly when no non-null
   * tile opts out of palette building.
   */
  lemma {:induction false} AssignableIff(cells: seq<Option<Tile>>, merged: seq<Group<nat>>, start: int)
    requires merged == MergedGroups(cells)
    ensures AllAssignable(cells, merged, start)
        <==> forall i :: 0 <= i < |cells| && cells[i].Some? ==> Emits(cells[i].value)
  {
    forall i | 0 <= i < |cells| && cells[i].Some?
      ensures Emits(cells[i].value) <==> AssignedCell(cells[i], i, merged, start).Ok?
    {
      if Emits(cells[i].value) {
        EmittingTileAssigned(cells, merged, i, start);
      } else {
        OptedOutTileFails(cells, merged, i, start);
      }
    }
  }

  /**
   * When the padding succeeds, the bank entry at a tile's palette index,
   * less `start`, begins with exactly the palette the tile was given.
   */
  lemma {:induction false} BankHoldsTilePalette(cells: seq<Option<Tile>>, merged: seq<Group<nat>>, i: int, start: int)
    requires merged == MergedGroups(cells)
    requires 0 <= i < |cells| && cells[i].Some? && Emits(cells[i].value)
    requires PadAll(Palettes(merged)).Ok?
    ensures AssignedCell(cells[i], i, merged, start).Ok?
      && AssignedCell(cells[i], i, merged, start).value.Some?
      && AssignedCell(cells[i], i, merged, start).value.value.palette.Some?
      && AssignedCell(cells[i], i, merged, start).value.value.paletteIndex.Some?
      && BankEntryStartsWith(PadAll(Palettes(merged)).value,
                             AssignedCell(cells[i], i, merged, start).value.value.paletteIndex.value - start,
                             AssignedCell(cells[i], i, merged, start).value.value.palette.value)
  {
    EmittingTileAssigned(cells, merged, i, start);
    var n := FindGroup(merged, i).value;
    assert Palettes(merged)[n] == merged[n].palette;
  }

  /** Entry `n` of `bank` exists and begins with `p`. */
  predicate BankEntryStartsWith(bank: seq<seq<int>>, n: int, p: seq<int>) {
    0 <= n < |bank| && |p| <= |bank[n]| && bank[n][..|p|] == p
  }
}
