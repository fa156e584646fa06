/**
 * The eyecatcher's fixed placements: every tile of its images gets the
 * slot its position table names, and loses every link (duplicate, or
 * animation master and child) that could move it or stand in for it.
 */
module EyecatcherPositions {
  import opened Wrappers
  import opened Tiles
  import opened Eyecatcher

  /** The slot field a table sets: the fix layer's or the sprites'. */
  datatype Target = FixSlot | SpriteSlot

  /**
   * One table entry applied to a tile: the slot is set, and the links the
   * source deletes are cleared.
   */
  function Place(t: Tile, slot: int, k: Target): Tile {
    match k
    case FixSlot => t.(sromIndex := Some(slot), duplicateOf := None)
    case SpriteSlot => t.(cromIndex := Some(slot), duplicateOf := None, childOf := None, childAnimationFrames := None)
  }

  /** An assignment the placement loops make: arena tile `tile` gets `slot`. */
  datatype Placement = Placement(tile: nat, slot: int)

  /** The arena after the placements `ps`, in order. */
  function PlaceAll(a: seq<Tile>, ps: seq<Placement>, k: Target): (r: seq<Tile>)
    ensures |r| == |a|
  {
    if ps == [] then a
    else
      var b := PlaceAll(a, ps[..|ps| - 1], k);
      var p := ps[|ps| - 1];
      if p.tile < |b| then b[p.tile := Place(b[p.tile], p.slot, k)] else b
  }

  /** The table row for matrix row `y`; rows past the end of the table have no entries. */
  function TableRow(table: seq<seq<int>>, y: int): seq<int> {
    if 0 <= y < |table| then table[y] else []
  }

  /** The first `n` cells of a row that have a table entry all hold arena tiles. */
  predicate RowCovered(cells: seq<Option<nat>>, entries: seq<int>, n: nat, size: nat) {
    n <= |cells| && forall x :: 0 <= x < n && x < |entries| ==> cells[x].Some? && cells[x].value < size
  }

  /** The first `m` rows of a matrix are covered by the table. */
  predicate Covered(tiles: Matrix, table: seq<seq<int>>, m: nat, size: nat) {
    m <= |tiles| && forall y :: 0 <= y < m ==> RowCovered(tiles[y], TableRow(table, y), |tiles[y]|, size)
  }

  /** The assignments for the first `n` cells of one row, in column order. */
  function RowPlacements(cells: seq<Option<nat>>, entries: seq<int>, n: nat, size: nat): seq<Placement>
    requires RowCovered(cells, entries, n, size)
  {
    if n == 0 then []
    else
      RowPlacements(cells, entries, n - 1, size)
      + (if n - 1 < |entries| then [Placement(cells[n - 1].value, entries[n - 1])] else [])
  }

  /** The assignments for the first `m` rows, row by row: what the two nested loops do. */
  function TablePlacements(tiles: Matrix, table: seq<seq<int>>, m: nat, size: nat): seq<Placement>
    requires Covered(tiles, table, m, size)
  {
    if m == 0 then []
    else TablePlacements(tiles, table, m - 1, size) + RowPlacements(tiles[m - 1], TableRow(table, m - 1), |tiles[m - 1]|, size)
  }

  /** The slot of the last assignment to tile `i`, if any. */
  function LastSlot(ps: seq<Placement>, i: nat): Option<int> {
    if ps == [] then None
    else if ps[|ps| - 1].tile == i then Some(ps[|ps| - 1].slot)
    else LastSlot(ps[..|ps| - 1], i)
  }

  // ---------------------------------------------------------------------
  // What the placement loops leave behind

  /**
   * Each tile ends up as it was, or, when it was assigned, placed at the
   * slot of its last assignment; a later entry overwrites an earlier one.
   */
  lemma {:induction false} PlaceAllAt(a: seq<Tile>, ps: seq<Placement>, k: Target, i: nat)
    requires i < |a|
    ensures PlaceAll(a, ps, k)[i] == (if LastSlot(ps, i).Some? then Place(a[i], LastSlot(ps, i).value, k) else a[i])
  {
    if ps != [] {
      PlaceAllAt(a, ps[..|ps| - 1], k, i);
    }
  }

  lemma {:induction false} LastSlotAppend(ps: seq<Placement>, qs: seq<Placement>, i: nat)
    ensures LastSlot(ps + qs, i) == (if LastSlot(qs, i).Some? then LastSlot(qs, i) else LastSlot(ps, i))
  {
    if qs != [] {
      assert (ps + qs)[..|ps + qs| - 1] == ps + qs[..|qs| - 1];
      LastSlotAppend(ps, qs[..|qs| - 1], i);
    } else {
      assert ps + qs == ps;
    }
  }

  /** A row none of whose assigned cells holds `i` assigns nothing to `i`. */
  lemma {:induction false} RowMisses(cells: seq<Option<nat>>, entries: seq<int>, n: nat, size: nat, i: nat)
    requires RowCovered(cells, entries, n, size)
    requires forall x :: 0 <= x < n && x < |entries| ==> cells[x].value != i
    ensures LastSlot(RowPlacements(cells, entries, n, size), i) == None
  {
    if n > 0 {
      RowMisses(cells, entries, n - 1, size, i);
      LastSlotAppend(RowPlacements(cells, entries, n - 1, size),
        if n - 1 < |entries| then [Placement(cells[n - 1].value, entries[n - 1])] else [], i);
    }
  }

  /** The cell at column `x` of a row with distinct tiles gets that column's entry. */
  lemma {:induction false} RowHits(cells: seq<Option<nat>>, entries: seq<int>, n: nat, size: nat, x: nat)
    requires RowCovered(cells, entries, n, size) && x < n && x < |entries|
    requires forall x2 :: 0 <= x2 < n && x2 < |entries| && x2 != x ==> cells[x2] != cells[x]
    ensures LastSlot(RowPlacements(cells, entries, n, size), cells[x].value) == Some(entries[x])
  {
    var last := if n - 1 < |entries| then [Placement(cells[n - 1].value, entries[n - 1])] else [];
    LastSlotAppend(RowPlacements(cells, entries, n - 1, size), last, cells[x].value);
    if x < n - 1 {
      RowHits(cells, entries, n - 1, size, x);
      if n - 1 < |entries| {
        assert cells[n - 1] != cells[x];
      }
    } else {
      RowMisses(cells, entries, n - 1, size, cells[x].value);
    }
  }

  /**
   * In a matrix with distinct tiles, the tile at a cell with a table entry
   * is last assigned that entry.
   */
  lemma {:induction false} TableHits(tiles: Matrix, table: seq<seq<int>>, m: nat, size: nat, y: nat, x: nat)
    requires Covered(tiles, table, m, size) && CellsDistinct(tiles)
    requires y < m && x < |tiles[y]| && x < |TableRow(table, y)|
    ensures LastSlot(TablePlacements(tiles, table, m, size), tiles[y][x].value) == Some(TableRow(table, y)[x])
  {
    var row := RowPlacements(tiles[m - 1], TableRow(table, m - 1), |tiles[m - 1]|, size);
    LastSlotAppend(TablePlacements(tiles, table, m - 1, size), row, tiles[y][x].value);
    assert RowCovered(tiles[y], TableRow(table, y), |tiles[y]|, size);
    if y < m - 1 {
      TableHits(tiles, table, m - 1, size, y, x);
      assert RowCovered(tiles[m - 1], TableRow(table, m - 1), |tiles[m - 1]|, size);
      var last := tiles[m - 1];
      forall x2 | 0 <= x2 < |last| && x2 < |TableRow(table, m - 1)|
        ensures last[x2].value != tiles[y][x].value
      {
        assert last[x2] != tiles[y][x];
      }
      RowMisses(tiles[m - 1], TableRow(table, m - 1), |tiles[m - 1]|, size, tiles[y][x].value);
    } else {
      RowHits(tiles[y], TableRow(table, y), |tiles[y]|, size, x);
    }
  }

  /** A tile that sits in no cell with a table entry is never assigned. */
  lemma {:induction false} TableMisses(tiles: Matrix, table: seq<seq<int>>, m: nat, size: nat, i: nat)
    requires Covered(tiles, table, m, size)
    requires forall y, x :: 0 <= y < m && 0 <= x < |tiles[y]| && x < |TableRow(table, y)| ==> tiles[y][x] != Some(i)
    ensures LastSlot(TablePlacements(tiles, table, m, size), i) == None
  {
    if m > 0 {
      TableMisses(tiles, table, m - 1, size, i);
      assert RowCovered(tiles[m - 1], TableRow(table, m - 1), |tiles[m - 1]|, size);
      var last := tiles[m - 1];
      assert forall x :: 0 <= x < |last| && x < |TableRow(table, m - 1)| ==> last[x] != Some(i);
      RowMisses(tiles[m - 1], TableRow(table, m - 1), |tiles[m - 1]|, size, i);
      LastSlotAppend(TablePlacements(tiles, table, m - 1, size),
        RowPlacements(tiles[m - 1], TableRow(table, m - 1), |tiles[m - 1]|, size), i);
    }
  }

  // ---------------------------------------------------------------------
  // The placement loops

  /** Assigning `ps` and then one more is assigning `ps + [p]`. */
  lemma {:induction false} PlaceAllSnoc(a: seq<Tile>, ps: seq<Placement>, p: Placement, k: Target)
    ensures PlaceAll(a, ps + [p], k) == (var b := PlaceAll(a, ps, k); if p.tile < |b| then b[p.tile := Place(b[p.tile], p.slot, k)] else b)
  {
    assert (ps + [p])[..|ps|] == ps;
  }

  lemma {:induction false} PlaceAllNothing(a: seq<Tile>, ps: seq<Placement>, k: Target)
    ensures PlaceAll(a, ps + [], k) == PlaceAll(a, ps, k)
  {
    assert ps + [] == ps;
  }

  /** Columns past the end of the table row assign nothing more. */
  lemma {:induction false} RowPlacementsPast(cells: seq<Option<nat>>, entries: seq<int>, n: nat, size: nat)
    requires RowCovered(cells, entries, n, size) && |entries| <= n
    ensures RowPlacements(cells, entries, n, size) == RowPlacements(cells, entries, |entries|, size)
  {
    if n > |entries| {
      RowPlacementsPast(cells, entries, n - 1, size);
      assert RowPlacements(cells, entries, n - 1, size) + [] == RowPlacements(cells, entries, n - 1, size);
    }
  }

  /**
   * One row of table-driven placement: columns `[0, n)` of the row, each
   * with a table entry assigned, the others passed over (the fix-layer loop
   * stops at the end of the table row, so it passes over none).
   */
  method PlaceRow(arena: array<Tile>, cells: seq<Option<nat>>, entries: seq<int>, n: nat, k: Target)
    requires RowCovered(cells, entries, n, arena.Length)
    modifies arena
    ensures arena[..] == PlaceAll(old(arena[..]), RowPlacements(cells, entries, n, arena.Length), k)
  {
    ghost var a := arena[..];
    for x := 0 to n
      invariant arena[..] == PlaceAll(a, RowPlacements(cells, entries, x, arena.Length), k)
    {
      if x < |entries| {
        var v := cells[x].value;
        PlaceAllSnoc(a, RowPlacements(cells, entries, x, arena.Length), Placement(v, entries[x]), k);
        arena[v] := Place(arena[v], entries[x], k);
      } else {
        PlaceAllNothing(a, RowPlacements(cells, entries, x, arena.Length), k);
      }
    }
  }

  /** Assigning `ps` and then `qs` is assigning `ps + qs`. */
  lemma {:induction false} PlaceAllAppend(a: seq<Tile>, ps: seq<Placement>, qs: seq<Placement>, k: Target)
    ensures PlaceAll(a, ps + qs, k) == PlaceAll(PlaceAll(a, ps, k), qs, k)
  {
    if qs == [] {
      assert ps + qs == ps;
    } else {
      var q := qs[..|qs| - 1];
      assert (ps + qs)[..|ps + qs| - 1] == ps + q;
      PlaceAllAppend(a, ps, q, k);
    }
  }

  /** Every cell of the first `m` rows that has a table entry has a tile in the arena. */
  predicate TableFits(tiles: Matrix, table: seq<seq<int>>, size: nat) {
    |table| <= |tiles|
    && (forall y :: 0 <= y < |table| ==> |table[y]| <= |tiles[y]|)
    && Covered(tiles, table, |table|, size)
  }

  /**
   * The eyecatcher file's `setSROMPositions(sromTiles, positions)`: for every
   * table cell, row by row, the tile there gets the fix slot of the table
   * and loses its duplicate link. The matrix must have a tile at every
   * table cell, or the source fails on a missing object.
   */
  method SetSromTable(arena: array<Tile>, sromTiles: Matrix, positions: seq<seq<int>>)
    requires TableFits(sromTiles, positions, arena.Length)
    modifies arena
    ensures arena[..] == PlaceAll(old(arena[..]), TablePlacements(sromTiles, positions, |positions|, arena.Length), FixSlot)
  {
    ghost var a := arena[..];
    for y := 0 to |positions|
      invariant Covered(sromTiles, positions, y, arena.Length)
      invariant arena[..] == PlaceAll(a, TablePlacements(sromTiles, positions, y, arena.Length), FixSlot)
    {
      SromRowStep(sromTiles, positions, y, arena.Length);
      PlaceTableRow(arena, a, sromTiles, positions, y, positions[y], |positions[y]|, FixSlot);
    }
  }

  /**
   * One pass of an outer placement loop: row `y` of the matrix, its first
   * `n` cells against `entries`, which together extend the placements of
   * the rows before it to those of the rows up to `y`.
   */
  method PlaceTableRow(arena: array<Tile>, ghost a: seq<Tile>, tiles: Matrix, table: seq<seq<int>>, y: nat,
                       entries: seq<int>, n: nat, k: Target)
    requires Covered(tiles, table, y, arena.Length) && Covered(tiles, table, y + 1, arena.Length)
    requires RowCovered(tiles[y], entries, n, arena.Length)
    requires TablePlacements(tiles, table, y + 1, arena.Length)
          == TablePlacements(tiles, table, y, arena.Length) + RowPlacements(tiles[y], entries, n, arena.Length)
    requires arena[..] == PlaceAll(a, TablePlacements(tiles, table, y, arena.Length), k)
    modifies arena
    ensures arena[..] == PlaceAll(a, TablePlacements(tiles, table, y + 1, arena.Length), k)
  {
    ghost var done := TablePlacements(tiles, table, y, arena.Length);
    PlaceRow(arena, tiles[y], entries, n, k);
    PlaceAllAppend(a, done, RowPlacements(tiles[y], entries, n, arena.Length), k);
  }

  /** Row `y` of a fitting table: its loop stops at the end of the table row. */
  lemma {:induction false} SromRowStep(tiles: Matrix, table: seq<seq<int>>, y: nat, size: nat)
    requires TableFits(tiles, table, size) && y < |table|
    ensures RowCovered(tiles[y], table[y], |table[y]|, size)
    ensures Covered(tiles, table, y, size) && Covered(tiles, table, y + 1, size)
    ensures TablePlacements(tiles, table, y + 1, size)
         == TablePlacements(tiles, table, y, size) + RowPlacements(tiles[y], table[y], |table[y]|, size)
  {
    assert RowCovered(tiles[y], TableRow(table, y), |tiles[y]|, size);
    assert TableRow(table, y) == table[y];
    RowPlacementsPast(tiles[y], table[y], |tiles[y]|, size);
  }

  /**
   * The eyecatcher's `setCROMPositions`: every cell of the main logo that
   * has an entry in the main table gets that sprite slot, and loses its
   * duplicate and animation links; cells past the table are skipped.
   */
  method SetCromPositions(arena: array<Tile>, images: seq<Matrix>)
    requires |images| > 0 && Covered(images[0], MAIN_IMAGE_TILE_POSITIONS, |images[0]|, arena.Length)
    modifies arena
    ensures arena[..] == PlaceAll(old(arena[..]),
              TablePlacements(images[0], MAIN_IMAGE_TILE_POSITIONS, |images[0]|, arena.Length), SpriteSlot)
  {
    var eyecatcherMainImage := images[0];
    ghost var a := arena[..];
    for y := 0 to |eyecatcherMainImage|
      invariant Covered(eyecatcherMainImage, MAIN_IMAGE_TILE_POSITIONS, y, arena.Length)
      invariant arena[..] == PlaceAll(a, TablePlacements(eyecatcherMainImage, MAIN_IMAGE_TILE_POSITIONS, y, arena.Length), SpriteSlot)
    {
      var entries := TableRow(MAIN_IMAGE_TILE_POSITIONS, y);
      CoveredStep(eyecatcherMainImage, MAIN_IMAGE_TILE_POSITIONS, y, |eyecatcherMainImage|, arena.Length);
      PlaceTableRow(arena, a, eyecatcherMainImage, MAIN_IMAGE_TILE_POSITIONS, y,
        entries, |eyecatcherMainImage[y]|, SpriteSlot);
    }
  }

  /** Covering `m` rows covers every shorter prefix, and row `y` itself. */
  lemma {:induction false} CoveredStep(tiles: Matrix, table: seq<seq<int>>, y: nat, m: nat, size: nat)
    requires Covered(tiles, table, m, size) && y < m
    ensures Covered(tiles, table, y, size) && Covered(tiles, table, y + 1, size)
    ensures RowCovered(tiles[y], TableRow(table, y), |tiles[y]|, size)
  {
  }

  // ---------------------------------------------------------------------
  // What a table does to each tile

  /**
   * In a matrix with distinct tiles, the tile at a cell with a table entry
   * ends up placed at that entry, its other fields as they were.
   */
  lemma {:induction false} TablePlaced(a: seq<Tile>, tiles: Matrix, table: seq<seq<int>>, m: nat, k: Target, y: nat, x: nat)
    requires Covered(tiles, table, m, |a|) && CellsDistinct(tiles)
    requires y < m && x < |tiles[y]| && x < |TableRow(table, y)|
    ensures tiles[y][x].Some? && tiles[y][x].value < |a|
    ensures PlaceAll(a, TablePlacements(tiles, table, m, |a|), k)[tiles[y][x].value]
         == Place(a[tiles[y][x].value], TableRow(table, y)[x], k)
  {
    assert RowCovered(tiles[y], TableRow(table, y), |tiles[y]|, |a|);
    TableHits(tiles, table, m, |a|, y, x);
    PlaceAllAt(a, TablePlacements(tiles, table, m, |a|), k, tiles[y][x].value);
  }

  /** A tile in no cell with a table entry is left exactly as it was. */
  lemma {:induction false} TableUntouched(a: seq<Tile>, tiles: Matrix, table: seq<seq<int>>, m: nat, k: Target, i: nat)
    requires Covered(tiles, table, m, |a|) && i < |a|
    requires forall y, x :: 0 <= y < m && 0 <= x < |tiles[y]| && x < |TableRow(table, y)| ==> tiles[y][x] != Some(i)
    ensures PlaceAll(a, TablePlacements(tiles, table, m, |a|), k)[i] == a[i]
  {
    TableMisses(tiles, table, m, |a|, i);
    PlaceAllAt(a, TablePlacements(tiles, table, m, |a|), k, i);
  }

  /**
   * The matrix `getCROMSources` returns for a main logo of the right size
   * has a tile at every cell of the main table: the placement never meets
   * a hole.
   */
  lemma {:induction false} MainLogoCovered(tiles: Matrix, image: Image, size: nat)
    requires Extracted(tiles, image, 16) && InArena(tiles, size)
    requires image.width == MAIN_IMAGE_SIZE_PX.width && image.height == MAIN_IMAGE_SIZE_PX.height
    ensures |tiles| == 4 && |MainTiles(tiles)| == 4
    ensures Covered(MainTiles(tiles), MAIN_IMAGE_TILE_POSITIONS, 4, size)
  {
    MainTilesMatchTable(tiles);
    var main := MainTiles(tiles);
    forall y | 0 <= y < 4
      ensures RowCovered(main[y], TableRow(MAIN_IMAGE_TILE_POSITIONS, y), |main[y]|, size)
    {
      forall x | 0 <= x < |main[y]|
        ensures main[y][x] == tiles[y][x]
      {
      }
    }
  }

  // ---------------------------------------------------------------------
  // The fix-layer driver

  /** `sromSourceResults.find`: the first result whose input is `name`; a missing name matches nothing. */
  function Find(results: seq<SourceResult>, name: Option<string>): (r: Option<SourceResult>)
    ensures r.Some? ==> r.value in results && name == Some(r.value.input)
    ensures r.None? ==> forall i :: 0 <= i < |results| ==> name != Some(results[i].input)
  {
    if results == [] then None
    else if name == Some(results[0].input) then Some(results[0])
    else Find(results[1..], name)
  }

  /** Searching a joined list finds in the first part before the second. */
  lemma {:induction false} FindAppend(xs: seq<SourceResult>, ys: seq<SourceResult>, name: Option<string>)
    ensures Find(xs + ys, name) == (if Find(xs, name).Some? then Find(xs, name) else Find(ys, name))
  {
    if xs == [] {
      assert xs + ys == ys;
    } else {
      assert (xs + ys)[1..] == xs[1..] + ys;
      FindAppend(xs[1..], ys, name);
    }
  }

  /** The input's value for a file's key: its name, or nothing when the key is absent. */
  function FileName(f: Option<SromFile>): Option<string> {
    if f.Some? then Some(f.value.name) else None
  }

  /** Two given files do not share a name. */
  predicate Apart(f: Option<SromFile>, g: Option<SromFile>) {
    Given(f) && Given(g) ==> f.value.name != g.value.name
  }

  /** The given fix-layer files have pairwise different names. */
  predicate DistinctNames(files: EyecatcherFiles) {
    Apart(files.max330Mega, files.proGearSpec) && Apart(files.max330Mega, files.snkLogo)
    && Apart(files.max330Mega, files.copyrightCharacter) && Apart(files.proGearSpec, files.snkLogo)
    && Apart(files.proGearSpec, files.copyrightCharacter) && Apart(files.snkLogo, files.copyrightCharacter)
  }

  /** A file's own result entry is found by its name; another file's entry never is. */
  lemma {:induction false} FindEntry(f: Option<SromFile>, g: Option<SromFile>)
    ensures Find(Entry(f), FileName(f)) == (if Given(f) then Some(SourceResult(f.value.tiles, f.value.name)) else None)
    ensures Apart(f, g) ==> Find(Entry(g), FileName(f)) == None
  {
  }

  /** The result found for a file, when its name is given and distinct, is that file's. */
  function Found(f: Option<SromFile>): Option<SourceResult> {
    if Given(f) then Some(SourceResult(f.value.tiles, f.value.name)) else None
  }

  /**
   * Over what a successful `getSROMSources` returns, with distinct file
   * names, each key of the input finds the matrix of its own file.
   */
  lemma {:induction false} SourcesFound(files: EyecatcherFiles)
    requires DistinctNames(files)
    ensures Find(SromSources(files), FileName(files.max330Mega)) == Found(files.max330Mega)
    ensures Find(SromSources(files), FileName(files.proGearSpec)) == Found(files.proGearSpec)
    ensures Find(SromSources(files), FileName(files.snkLogo)) == Found(files.snkLogo)
    ensures Find(SromSources(files), FileName(files.copyrightCharacter)) == Found(files.copyrightCharacter)
  {
    var m, p, s, c := files.max330Mega, files.proGearSpec, files.snkLogo, files.copyrightCharacter;
    FindEntry(m, p); FindEntry(m, s); FindEntry(m, c);
    FindEntry(p, m); FindEntry(p, s); FindEntry(p, c);
    FindEntry(s, m); FindEntry(s, p); FindEntry(s, c);
    FindEntry(c, m); FindEntry(c, p); FindEntry(c, s);
    FindFour(Entry(m), Entry(p), Entry(s), Entry(c), FileName(m));
    FindFour(Entry(m), Entry(p), Entry(s), Entry(c), FileName(p));
    FindFour(Entry(m), Entry(p), Entry(s), Entry(c), FileName(s));
    FindFour(Entry(m), Entry(p), Entry(s), Entry(c), FileName(c));
  }

  /** Searching four joined lists finds in the first of them that has a match. */
  lemma {:induction false} FindFour(e1: seq<SourceResult>, e2: seq<SourceResult>, e3: seq<SourceResult>, e4: seq<SourceResult>, name: Option<string>)
    ensures Find(e1 + e2 + e3 + e4, name)
         == if Find(e1, name).Some? then Find(e1, name)
            else if Find(e2, name).Some? then Find(e2, name)
            else if Find(e3, name).Some? then Find(e3, name)
            else Find(e4, name)
  {
    FindAppend(e1 + e2 + e3, e4, name);
    FindAppend(e1 + e2, e3, name);
    FindAppend(e1, e2, name);
  }

  /** A found matrix, if any, has a tile at every cell of `table`. */
  predicate Fits(found: Option<SourceResult>, table: seq<seq<int>>, size: nat) {
    found.Some? ==> TableFits(found.value.tiles, table, size)
  }

  /** What the driver finds fits each of the four tables. */
  predicate PositionsFit(results: seq<SourceResult>, files: EyecatcherFiles, size: nat) {
    Fits(Find(results, FileName(files.max330Mega)), MAX_330_MEGA_TILE_POSITIONS, size)
    && Fits(Find(results, FileName(files.proGearSpec)), PRO_GEAR_SPEC_TILE_POSITIONS, size)
    && Fits(Find(results, FileName(files.snkLogo)), COMPANY_LOGO_TILE_POSITIONS, size)
    && Fits(Find(results, FileName(files.copyrightCharacter)), COPYRIGHT_TILE_POSITIONS, size)
  }

  /** The assignments one table makes to a found matrix; none when nothing is found. */
  function FoundPlacements(found: Option<SourceResult>, table: seq<seq<int>>, size: nat): seq<Placement>
    requires Fits(found, table, size)
  {
    if found.Some? then TablePlacements(found.value.tiles, table, |table|, size) else []
  }

  /** The assignments of the four tables, in the driver's order. */
  function SromPositionPlacements(results: seq<SourceResult>, files: EyecatcherFiles, size: nat): seq<Placement>
    requires PositionsFit(results, files, size)
  {
    FoundPlacements(Find(results, FileName(files.max330Mega)), MAX_330_MEGA_TILE_POSITIONS, size)
    + FoundPlacements(Find(results, FileName(files.proGearSpec)), PRO_GEAR_SPEC_TILE_POSITIONS, size)
    + FoundPlacements(Find(results, FileName(files.snkLogo)), COMPANY_LOGO_TILE_POSITIONS, size)
    + FoundPlacements(Find(results, FileName(files.copyrightCharacter)), COPYRIGHT_TILE_POSITIONS, size)
  }

  /** One table of the driver: find the image, and when found, place it. */
  method PlaceFound(arena: array<Tile>, ghost a: seq<Tile>, ghost done: seq<Placement>,
                    results: seq<SourceResult>, name: Option<string>, table: seq<seq<int>>)
    requires Fits(Find(results, name), table, arena.Length)
    requires arena[..] == PlaceAll(a, done, FixSlot)
    modifies arena
    ensures arena[..] == PlaceAll(a, done + FoundPlacements(Find(results, name), table, arena.Length), FixSlot)
  {
    var image := Find(results, name);
    if image.Some? {
      SetSromTable(arena, image.value.tiles, table);
    }
    PlaceAllAppend(a, done, FoundPlacements(image, table, arena.Length), FixSlot);
  }

  /**
   * The eyecatcher's `setSROMPositions`: each of the four images, looked up
   * among the source results by its input key, gets its table's fix slots;
   * an image that is not found is skipped.
   */
  method SetSromPositions(arena: array<Tile>, files: EyecatcherFiles, results: seq<SourceResult>)
    requires PositionsFit(results, files, arena.Length)
    modifies arena
    ensures arena[..] == PlaceAll(old(arena[..]), SromPositionPlacements(results, files, arena.Length), FixSlot)
  {
    ghost var a := arena[..];
    assert a == PlaceAll(a, [], FixSlot);
    ghost var p1 := FoundPlacements(Find(results, FileName(files.max330Mega)), MAX_330_MEGA_TILE_POSITIONS, arena.Length);
    ghost var p2 := FoundPlacements(Find(results, FileName(files.proGearSpec)), PRO_GEAR_SPEC_TILE_POSITIONS, arena.Length);
    ghost var p3 := FoundPlacements(Find(results, FileName(files.snkLogo)), COMPANY_LOGO_TILE_POSITIONS, arena.Length);
    PlaceFound(arena, a, [], results, FileName(files.max330Mega), MAX_330_MEGA_TILE_POSITIONS);
    assert [] + p1 == p1;
    PlaceFound(arena, a, p1, results, FileName(files.proGearSpec), PRO_GEAR_SPEC_TILE_POSITIONS);
    PlaceFound(arena, a, p1 + p2, results, FileName(files.snkLogo), COMPANY_LOGO_TILE_POSITIONS);
    PlaceFound(arena, a, p1 + p2 + p3, results, FileName(files.copyrightCharacter), COPYRIGHT_TILE_POSITIONS);
  }

  /**
   * A matrix cut from a fix-layer image fits a table with one row per band
   * of eight pixel rows and no row wider than the image.
   */
  lemma {:induction false} ExtractedFits(tiles: Matrix, image: Image, table: seq<seq<int>>, size: nat)
    requires Extracted(tiles, image, 8) && InArena(tiles, size)
    requires (image.height + 7) / 8 == |table|
    requires forall y :: 0 <= y < |table| ==> |table[y]| <= (image.width + 7) / 8
    ensures TableFits(tiles, table, size)
  {
    forall y | 0 <= y < |table|
      ensures RowCovered(tiles[y], TableRow(table, y), |tiles[y]|, size)
    {
      assert forall x :: 0 <= x < |tiles[y]| ==> tiles[y][x].Some?;
    }
  }

  /** A given file that passed its checks fits the table of its key. */
  lemma {:induction false} FileFits(f: Option<SromFile>, expected: Size, table: seq<seq<int>>, size: nat)
    requires Given(f) ==> Extracted(f.value.tiles, f.value.image, 8) && InArena(f.value.tiles, size)
    requires FileError(f, expected).None?
    requires (expected.height + 7) / 8 == |table|
    requires forall y :: 0 <= y < |table| ==> |table[y]| <= (expected.width + 7) / 8
    ensures Fits(Found(f), table, size)
  {
    if Given(f) {
      ExtractedFits(f.value.tiles, f.value.image, table, size);
    }
  }

  /**
   * What a successful `getSROMSources` returns always meets the driver's
   * needs: every image it finds has a tile at every cell of its table.
   */
  lemma {:induction false} SourcesFit(a: seq<Tile>, files: EyecatcherFiles)
    requires FilesLoaded(files, |a|) && SromSourcesError(a, files).None? && DistinctNames(files)
    ensures PositionsFit(SromSources(files), files, |a|)
  {
    SourcesFound(files);
    assert FileError(files.proGearSpec, PRO_GEAR_SPEC_SIZE_PX).None?;
    FileFits(files.max330Mega, MAX_330_MEGA_SIZE_PX, MAX_330_MEGA_TILE_POSITIONS, |a|);
    FileFits(files.proGearSpec, PRO_GEAR_SPEC_SIZE_PX, PRO_GEAR_SPEC_TILE_POSITIONS, |a|);
    FileFits(files.snkLogo, COMPANY_LOGO_SIZE_PX, COMPANY_LOGO_TILE_POSITIONS, |a|);
    FileFits(files.copyrightCharacter, COPYRIGHT_SIZE_PX, COPYRIGHT_TILE_POSITIONS, |a|);
  }
}
