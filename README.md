# sromcrom tile pipeline, modelled in Dafny

sromcrom turns PNG art into the graphics ROMs of the Neo Geo: the fix
layer (SROM, 8×8 tiles of 4-bit pixels, 32 bytes each, in a 128 KiB
image) and the sprite layer (CROM, 16×16 tiles of four 8×8 corners, each
tile 64 bytes in each of two bit-plane streams). This project models the
part of the pipeline that runs once the pixels of every tile are known,
and proves what it promises:

- the 24-bit to 16-bit colour codec with its dark bit (luma parity), and
  the variant that drops the dark bit;
- a tile's 24-bit palette (magenta first, duplicates removed by first
  occurrence), the canonical palette sort, grouping tiles by palette, the
  greedy merge of groups under the 16-colour cap, padding to 16 entries
  and palette-index assignment, in the newer `determinePalettesToEmit`
  and the older `determinePalettes`;
- the fix-layer and sprite tile encoders, newer (`set*BinaryData`, which
  write into the tile) and older (`toSROMTile`, `toCROMTile`, which return
  a new record);
- duplicate marking (`markDupes`) and the clone in which duplicates carry
  their target's slot (`denormalizeDupes`);
- slot allocation: first fit from slot 33 for the fix layer, and the
  sprite allocator that keeps 4- and 8-frame auto animations aligned, in
  its newer and its older form;
- the binary emitters: the sprite slot walk with gap fill, the newer
  fix-layer emitter with its priority rule, the older slot walk, and `padTo`;
- the eyecatcher generator (its slot tables, blank-tile test, palette
  check and tile flagging) and the sprite-animation generator (frame
  slicing, the auto-animation count check, master/child linking and the
  code-emit data).

A tile is one record type for both layers. Tiles link to one another by
object reference in the source; here every tile lives in an arena (a
sequence, or an `array<Tile>` where the source updates tiles in place)
and a reference is an arena index. A tile matrix is
`seq<seq<Option<nat>>>`, `None` being a null cell. A pixel is an RGBA
4-tuple, and a tile's image is its pixels row by row. Every `throw`,
and every crash on `undefined` that the inputs can reach, becomes an
`Err` of `Wrappers.Error`. Crashes that only a malformed matrix could
cause are preconditions instead: no null cell in a source tile matrix
(`NoEmptyCells`), a table cell for every position (`TableFits`,
`Covered`) and a master frame for every child frame (`FramesFit`); the
callers discharge them with lemmas such as
`EyecatcherPositions.SourcesFit`, `EyecatcherPositions.MainLogoCovered`
and `CromAnimationInputs.AutoFramesFit`. Loops
of the source are `while` loops of methods proved against specification
functions; the lemmas about those functions carry the properties.

## Model

| member | source | states |
|---|---|---|
| Padding.PadTo | src/api/util/padTo.ts:6-16 | succeeds exactly when the data is no longer than the target, otherwise the too-big error; on success the result has the target length, starts with the data and is zero after it |
| Padding.PadToExact | src/api/util/padTo.ts:6-16 | padding to the data's own length returns the data unchanged |
| Palette24.Palette24Of | src/api/palette/get24BitPalette.ts:14-24 | the palette starts with opaque magenta, has no repeated colour, holds exactly magenta and the image's colours, and is at most one longer than the pixel list |
| Palette24.Get24BitPalette | src/api/palette/get24BitPalette.ts:9-25 | the collecting loop, the unshift of magenta and the de-duplication yield that palette |
| Palette24.PaletteFirstOccurrenceOrder | src/api/palette/get24BitPalette.ts:22-24 | palette entries keep first-occurrence order in the magenta-prefixed pixel list |
| Palette24.AllMagentaPalette | src/api/palette/get24BitPalette.ts:22-24 | an image drawn only in opaque magenta has the one-entry palette `[magenta]` |
| CanvasBlank.IsCanvasBlank | src/api/canvas/isCanvasBlank.ts:3-15 | the stride-4 scan answers blank exactly when no alpha byte in the buffer is 255 |
| CanvasBlank.CanvasBlankPixels | src/api/canvas/isCanvasBlank.ts:8-14 | on a pixel buffer, blank means no pixel has alpha 255; alphas 0 to 254 and all colours count as blank |
| CanvasBlank.EmptyCanvasBlank | src/api/canvas/isCanvasBlank.ts:8-14 | an empty buffer is blank |
| CanvasBlank.OpaqueMagentaNotBlank | src/api/canvas/isCanvasBlank.ts:9-11 | a canvas holding an opaque magenta pixel is not blank |
| Frames.FrameKeepsColumns | src/api/tile/sliceOutFrame.ts:11-13 | the frame has one row per input row; row `y` holds that row's cells from `startX` up to `endX` or the row's end, in order |
| Frames.SliceOutFrame | src/api/tile/sliceOutFrame.ts:4-16 | the loop pushes exactly the `slice(startX, endX)` of every row |
| Color.Luma | src/api/palette/convertTo16Bit.ts:6 | the luma bit is 0 or 1 |
| Color.ConvertTo16BitColorIgnoreDarkBit | src/api/palette/convertTo16Bit.ts:24-41 | the ignore-dark-bit word fits in 15 bits |
| Color.ConvertTo16BitColor | src/api/palette/convertTo16Bit.ts:3-22 | the colour word fits in 16 bits |
| Color.DecodeColor16 | src/api/palette/convertTo16Bit.ts:12-19 | reading the fields back out of a word gives five-bit channels and a dark bit of 0 or 1 |
| Color.DecodeCompose | src/api/palette/convertTo16Bit.ts:12-19 | the bit layout is invertible: decoding a composed word gives back its dark bit and channels |
| Color.DecodeConvert | src/api/palette/convertTo16Bit.ts:3-22 | decoding a converted colour gives its channels divided by 8 and the inverted luma parity as dark bit |
| Color.ConvertIsCompose | src/api/palette/convertTo16Bit.ts:12-19 | the or of shifted fields is the layout of (inverted luma, red, green, blue) |
| Color.IgnoreDarkBitClearsBit15 | src/api/palette/convertTo16Bit.ts:24-41 | the two conversions differ only in bit 15, which is the inverted luma parity |
| Color.ConvertCollides | src/api/palette/convertTo16Bit.ts:3-22 | two colours get the same word exactly when their five-bit channels and luma parity agree |
| Color.ConvertTo16BitPalette | src/api/palette/convertTo16Bit.ts:49-51 | the 16-bit palette has one converted word per entry, in order |
| Color.ConvertTo16BitPaletteIgnoreDarkBit | src/api/palette/convertTo16Bit.ts:43-47 | the same, with the dark bit left clear |
| Color.NamedColors | src/api/palette/colors.ts:4-16 | the words of magenta, white, black, red and green are the literal constants; magenta's two conversions agree and equal the transparent word |
| Color.MagentaWord | src/api/palette/colors.ts:4-5 | magenta converts to the magenta word under both conversions |
| Color.WhiteWord | src/api/palette/colors.ts:6-7 | white converts to the white word |
| Color.BlackWord | src/api/palette/colors.ts:8-9 | black converts to the black word |
| Color.RedWord | src/api/palette/colors.ts:10-11 | red converts to the red word |
| Color.GreenWord | src/api/palette/colors.ts:12-13 | green converts to the green word |
| Color.DarkRedWord | src/api/palette/__tests__/convertTo16Bit.test.ts:30-35 | half-intensity red converts to 0x0800 |
| CromTile.CornerOf | src/api/crom/toCROMTile.ts:6-19 | every pixel of a 16x16 tile lies in exactly one of the four 8x8 corners read in the order upper right, lower right, upper left, lower left |
| CromTile.CornerPixels | src/api/crom/toCROMTile.ts:6-19 | a corner read is 64 pixels |
| CromTile.CornerPixelAt | src/api/crom/toCROMTile.ts:6-19 | pixel `(x, y)` of the tile is pixel `8 (y mod 8) + x mod 8` of its corner |
| CromTile.CromPixelIndex | src/api/crom/toCROMTile.ts:28-33 | a fully transparent pixel gets index 0; any other gets the first palette position holding its 16-bit colour |
| CromTile.CornerIndices | src/api/crom/toCROMTile.ts:21-47 | indexing fails exactly when some non-transparent pixel's colour is missing from the palette, with that error; otherwise one index per pixel |
| CromTile.ConvertToIndexed | src/api/crom/toCROMTile.ts:21-47 | the push loop returns those indices or throws at the first missing colour |
| CromTile.NibbleBits | src/api/crom/toCROMTile.ts:53-57 | an index below 16 is the weighted sum of its four low bits |
| CromTile.PlaneByteBit | src/api/crom/toCROMTile.ts:65-69 | bit `p` of a plane byte is bit `k` of the `p`-th index of its run of eight |
| CromTile.PlaneByteBound | src/api/crom/toCROMTile.ts:65-69 | a plane byte of `n` indices is below `2^n` |
| CromTile.PlaneByteSnoc | src/api/crom/toCROMTile.ts:67-68 | or-ing the next index's bit in adds `2^p` exactly when that bit is set |
| CromTile.CornerBytes | src/api/crom/toCROMTile.ts:49-75 | a corner of `n` indices gives `n / 4` plane bytes |
| CromTile.CornerBytesAt | src/api/crom/toCROMTile.ts:61-72 | bytes `2r` and `2r + 1` are the plane bytes of bit `planeOffset` and `planeOffset + 1` of run `r` |
| CromTile.GetBytesForIndexedCorner | src/api/crom/toCROMTile.ts:49-75 | the nested loops push exactly those plane bytes |
| CromTile.RunStep | src/api/crom/toCROMTile.ts:65-69 | one pass of the inner loop sets bit `p` of both plane bytes from index `p` |
| CromTile.CornerStep | src/api/crom/toCROMTile.ts:61-72 | one pass of the outer loop appends the two plane bytes of the next run |
| CromTile.CornersBytes | src/api/crom/toCROMTile.ts:76-83 | the corners' plane bytes joined in corner order make 16 bytes per corner |
| CromTile.CornersBytesAt | src/api/crom/toCROMTile.ts:76-83 | byte `j` of corner `q` sits at `16q + j` of the stream |
| CromTile.TileIndices | src/api/crom/toCROMTile.ts:86-89 | indexing the tile fails exactly when some corner pixel is not indexable; otherwise the four corners' indices in order |
| CromTile.EncodeCrom | src/api/crom/toCROMTile.ts:85-101 | encoding fails exactly when indexing fails; otherwise two 64-byte streams |
| CromTile.CornerBytesBound | src/api/crom/toCROMTile.ts:61-72 | every plane byte is below 256 |
| CromTile.EncodeCromBytes | src/api/crom/toCROMTile.ts:91-92 | every byte of both streams is below 256 |
| CromTile.DecodeCrom | src/api/crom/toCROMTile.ts:53-57 | reading the indices back out of the two streams gives four corners of 64 indices |
| CromTile.StreamBits | src/api/crom/toCROMTile.ts:91-92 | the two bytes of run `r` of corner `q` in a stream carry bits `planeOffset` and `planeOffset + 1` of the run's indices |
| CromTile.CromRoundTripAt | src/api/crom/toCROMTile.ts:91-92 | an index below 16 is rebuilt from the four plane bytes of its run |
| CromTile.CromRoundTrip | src/api/crom/toCROMTile.ts:76-92 | for indices below 16, decoding the odd stream (planes 0, 1) and even stream (planes 2, 3) gives the corners back |
| CromTile.EncodeCromPixel | src/api/crom/toCROMTile.ts:85-101 | a pixel that is neither transparent nor in the palette makes encoding fail; on success a transparent pixel decodes to 0 and any other to its colour's first palette position, when below 16 |
| CromTile.SetCromBinaryData | src/api/crom/setCROMBinaryData.ts:85-101 | a tile with no palette fails with the missing-palette error, a missing colour with its error, and neither changes the arena; otherwise only that tile's `cromBinaryData` is set, to the encoded streams |
| CromTile.ToCromTile | src/api/crom/toCROMTile.ts:85-101 | the older encoder returns the source record plus both streams, or the indexing error |
| CromTile.EncodeTile | src/api/crom/toCROMTile.ts:86-92 | the steps both encoders share compute the encoding of the tile |
| SromTile.SromPixels | src/api/srom/setSROMBinaryData.ts:20-22 | the 8x8 read gives 64 pixels |
| SromTile.SromPixelAt | src/api/srom/setSROMBinaryData.ts:20-22 | pixel `(x, y)` of the image is entry `8y + x` of the read |
| SromTile.PixelIndex | src/api/srom/setSROMBinaryData.ts:24-44 | a pixel that is not fully opaque gets 0; an opaque one gets the first palette position of its colour word (with or without the dark bit), or -1 exactly when the word is missing |
| SromTile.LegacyPixelIndex | src/api/srom/toSROMTile.ts:13-28 | the older index is the first palette position of the pixel's full colour word, or -1 exactly when it is missing; alpha plays no part |
| SromTile.IndexedData | src/api/srom/setSROMBinaryData.ts:10-48 | one index per pixel |
| SromTile.LegacyIndexedData | src/api/srom/toSROMTile.ts:7-32 | one index per pixel |
| SromTile.GetIndexedData | src/api/srom/setSROMBinaryData.ts:10-48 | the push loop gives each pixel's index in order; the guard against `undefined` never fires |
| SromTile.GetLegacyIndexedData | src/api/srom/toSROMTile.ts:7-32 | the older loop gives each pixel's full-word index in order |
| SromTile.SromBytes | src/api/srom/setSROMBinaryData.ts:50-102 | the packed payload is 32 bytes, each below 256 |
| SromTile.ConvertToSromFormat | src/api/srom/setSROMBinaryData.ts:50-102 | the four row loops write blocks for columns 4-5, 6-7, 0-1, 2-3, left pixel in the low nibble |
| SromTile.ColumnBlock | src/api/srom/setSROMBinaryData.ts:53-99 | every column belongs to exactly one of the four byte blocks |
| SromTile.UnpackSrom | src/api/srom/setSROMBinaryData.ts:58-61 | reading nibbles back out of 32 bytes gives 64 indices |
| SromTile.UnpackPacked | src/api/srom/setSROMBinaryData.ts:50-102 | unpacking recovers the low nibble (`& 0xf`) of every index |
| SromTile.SromRoundTrip | src/api/srom/setSROMBinaryData.ts:50-102 | for indices 0 to 15 the packing is invertible |
| SromTile.NibbleOfIndex | src/api/srom/setSROMBinaryData.ts:60-61 | an index of -1 packs as 0xF; 0 to 15 pack as themselves |
| SromTile.EncodeSrom | src/api/srom/setSROMBinaryData.ts:111-116 | the newer payload is 32 bytes |
| SromTile.EncodeSromLegacy | src/api/srom/toSROMTile.ts:88-97 | the older payload is 32 bytes |
| SromTile.EncodeSromPixel | src/api/srom/setSROMBinaryData.ts:24-61 | in the newer payload a pixel that is not fully opaque reads 0, a colour at palette position `k < 16` reads `k`, and a missing colour reads 0xF |
| SromTile.EncodeSromLegacyPixel | src/api/srom/toSROMTile.ts:13-45 | in the older payload every pixel reads its colour word's position, and a missing one reads 0xF |
| SromTile.GenerationsDisagreeOnTransparency | src/api/srom/toSROMTile.ts:18-20 | on a fully transparent black tile over `[transparent, black]` the newer encoder writes colour 0 and the older colour 1 |
| SromTile.SetSromBinaryData | src/api/srom/setSROMBinaryData.ts:104-119 | a tile without a palette fails and the arena is unchanged; otherwise only that tile's `sromBinaryData` is set, to the payload for its palette and dark-bit flag (absent flag = false) |
| SromTile.ToSromTile | src/api/srom/toSROMTile.ts:88-97 | the older encoder returns the source record plus the older payload |
| Dupes.Matching | src/api/tile/markDupes.ts:15-21 | the filter lists, in increasing order, exactly the other unmarked tiles among the first `n` that the comparator matches with tile `i` |
| Dupes.MarkStep | src/api/tile/markDupes.ts:10-25 | one round of the outer `forEach` keeps the number of tiles |
| Dupes.MarkedUpTo | src/api/tile/markDupes.ts:9-26 | the first `n` rounds keep the number of tiles |
| Dupes.Marked | src/api/tile/markDupes.ts:5-27 | the whole run keeps the number of tiles |
| Dupes.MarkDupes | src/api/tile/markDupes.ts:5-27 | the in-place loop leaves the arena as the rounds applied in order; the filter is taken before any tile of the round is pointed |
| Dupes.PointAt | src/api/tile/markDupes.ts:23-25 | every listed tile now has `duplicateOf` = tile `i`, and no other tile changes |
| Dupes.MarkStepPointwise | src/api/tile/markDupes.ts:10-25 | pointing the matching tiles of an unmarked tile at it is one round; a marked tile's round changes nothing |
| Dupes.RoundAt | src/api/tile/markDupes.ts:15-25 | after round `n` a tile points at tile `n - 1` exactly when that round's filter picked it, and is otherwise as before |
| Dupes.ShapeAt | src/api/tile/markDupes.ts:9-26 | for any comparator only `duplicateOf` changes, an already marked tile is untouched, and a newly marked tile points at a different tile among the first `n` that was unmarked |
| Dupes.MarkedShape | src/api/tile/markDupes.ts:9-26 | the same for every tile of a whole run |
| Dupes.EquivalenceAt | src/api/tile/markDupes.ts:15-25 | with a symmetric comparator that ignores links, a newly marked tile points at an earlier, unmarked, matching tile, and two unmarked tiles among the first `n` do not match |
| Dupes.MarkedTargets | src/api/tile/markDupes.ts:9-26 | after a run every marked tile points at an earlier tile that is unmarked and matches it |
| Dupes.MarkDupesIdempotent | src/api/tile/markDupes.ts:10-13 | with such a comparator a second run changes nothing |
| Dupes.SettledStays | src/api/tile/markDupes.ts:10-21 | a run over tiles in which no two unmarked tiles match is a no-op |
| Dupes.MarkAllToFirst | src/api/tile/__tests__/markDupes.test.ts:6-13 | with a comparator that always matches, the first tile stays unmarked and every other tile points at it |
| Dupes.FirstClaimsAll | src/api/tile/markDupes.ts:9-26 | with an always-matching comparator the first round marks all others and later rounds skip them |
| Dupes.UnlinkedPayloads | src/orchestrators/cromOrchestrator/markCromDupes.ts:5-7 | tiles equal apart from their link have equal payloads |
| Dupes.CromComparatorQualifies | src/orchestrators/cromOrchestrator/markCromDupes.ts:5-7 | the CROM payload comparator is symmetric and ignores links |
| Dupes.SromComparatorQualifies | src/orchestrators/sromOrchestrator/markSromDupes.ts:5-7 | the SROM payload comparator is symmetric and ignores links |
| Dupes.AnimationTilesMarked | src/orchestrators/cromOrchestrator/markCromDupes.ts:5-7 | a master and a plain tile with the same sprite payload are linked whatever their animation links |
| Denormalize.SetIndex | src/api/tile/denormalizeDupes.ts:29 | after the write the chosen index property holds `v` |
| Denormalize.Visit | src/api/tile/denormalizeDupes.ts:27-31 | visiting a cell keeps the number of tiles |
| Denormalize.Denormalized | src/api/tile/denormalizeDupes.ts:25-33 | visiting a list of cells keeps the number of tiles |
| Denormalize.DenormalizeDupes | src/api/tile/denormalizeDupes.ts:19-36 | returns a fresh clone equal to the arena after visiting every cell of every matrix in order; the input arena is unchanged |
| Denormalize.VisitImage | src/api/tile/denormalizeDupes.ts:26-32 | the middle loop visits one matrix's rows in order |
| Denormalize.VisitRow | src/api/tile/denormalizeDupes.ts:27-31 | the innermost loop visits one row's cells in order |
| Denormalize.DenormalizedAppend | src/api/tile/denormalizeDupes.ts:25-33 | visiting `vs` then `ws` is visiting `vs + ws` |
| Denormalize.VisitsStep | src/api/tile/denormalizeDupes.ts:27-31 | one more cell is one more visit |
| Denormalize.DenormalizedLinks | src/api/tile/denormalizeDupes.ts:28-29 | visiting keeps every `duplicateOf` link |
| Denormalize.DenormalizedAt | src/api/tile/denormalizeDupes.ts:28-29 | a tile of the clone differs from the original at most in the index field; an unvisited tile or one that is no duplicate is unchanged |
| Denormalize.OneHop | src/api/tile/denormalizeDupes.ts:28-29 | when no target is itself a duplicate, every visited duplicate ends with its target's original index |
| Denormalize.NoDupesNoChange | src/api/tile/denormalizeDupes.ts:28-29 | with no duplicates the clone equals the arena |
| Denormalize.DenormalizeMarked | src/api/tile/denormalizeDupes.ts:3-10 | after `markDupes` from no marks, every visited duplicate gets the index of the tile it duplicates |
| PaletteGroups.CanonicalPalette | src/orchestrators/common/determinePalettesToEmit.ts:43-44 | a tile's canonical palette has no repeats, is sorted transparent-first then ascending, and starts with the transparent word |
| PaletteGroups.GroupWithPalette | src/orchestrators/common/determinePalettesToEmit.ts:48-55 | the lookup finds the first group with exactly that palette, and reports none exactly when no group has it |
| PaletteGroups.Palettes | src/orchestrators/common/determinePalettesToEmit.ts:77 | the key list has one palette per group, in order |
| PaletteGroups.GroupedIsGrouping | src/orchestrators/common/determinePalettesToEmit.ts:32-64 | the palette map has one group per distinct canonical palette in order of first appearance, each holding exactly the non-null tiles with that palette, in input order |
| PaletteGroups.GroupingStep | src/orchestrators/common/determinePalettesToEmit.ts:38-56 | one more tile (or null) keeps that description |
| PaletteGroups.GroupingSkipsNull | src/orchestrators/common/determinePalettesToEmit.ts:39-41 | a null entry changes nothing |
| PaletteGroups.GroupingExtends | src/orchestrators/common/determinePalettesToEmit.ts:48-49 | a tile whose palette already has a group joins the end of that group |
| PaletteGroups.GroupingAppends | src/orchestrators/common/determinePalettesToEmit.ts:50-55 | a tile with a new palette opens a new group at the end |
| PaletteGroups.AppendedPalettes | src/orchestrators/common/determinePalettesToEmit.ts:50-55 | a new palette appended keeps first-appearance order of the keys |
| PaletteGroups.AppendedMembers | src/orchestrators/common/determinePalettesToEmit.ts:50-55 | the old groups keep their tiles and the new group holds only the new tile |
| PaletteGroups.MembersWithAbsent | src/orchestrators/common/determinePalettesToEmit.ts:32-64 | a palette no tile has collects no tiles |
| PaletteGroups.BuildPaletteMap | src/orchestrators/common/determinePalettesToEmit.ts:32-64 | the loop builds exactly that palette map |
| PaletteGroups.Absorb | src/orchestrators/common/determinePalettesToEmit.ts:83-98 | one inner round leaves at most as many groups as it was given |
| PaletteGroups.AbsorbMergesFront | src/orchestrators/common/determinePalettesToEmit.ts:88-94 | a next group whose merge has fewer than 17 colours is absorbed: merged palette, tiles appended |
| PaletteGroups.AbsorbSkipsFront | src/orchestrators/common/determinePalettesToEmit.ts:95-97 | a next group whose merge has 17 or more colours is kept for later, in order |
| PaletteGroups.MergePalettes | src/orchestrators/common/determinePalettesToEmit.ts:74-104 | the splice-in-place loops compute the greedy merge of the palette map in key order |
| PaletteGroups.AbsorbLater | src/orchestrators/common/determinePalettesToEmit.ts:83-98 | the inner loop for palette `i` ends with `i`'s grown group followed by the skipped groups, the front of the list unchanged |
| PaletteGroups.MergeStep | src/orchestrators/common/determinePalettesToEmit.ts:88-94 | splicing out an absorbed group keeps the inner loop's invariant |
| PaletteGroups.SpliceOutKeepsFront | src/orchestrators/common/determinePalettesToEmit.ts:92 | `splice(k, 1)` keeps the front, closes the gap and shortens the list by one |
| PaletteGroups.SkipStep | src/orchestrators/common/determinePalettesToEmit.ts:95-97 | passing over a group keeps the inner loop's invariant |
| PaletteGroups.MergeRound | src/orchestrators/common/determinePalettesToEmit.ts:100 | at the end of a round `i`'s group is final and the skipped groups follow |
| PaletteGroups.RoundDone | src/orchestrators/common/determinePalettesToEmit.ts:79-101 | finishing group `i` keeps the outer loop's invariant |
| PaletteGroups.MergeTwoPalettesMerges | src/orchestrators/common/determinePalettesToEmit.ts:66-72 | merging two palettes gives their colour union, canonical |
| PaletteGroups.AbsorbKeepsMembers | src/orchestrators/common/determinePalettesToEmit.ts:83-98 | one round loses no tile and invents none |
| PaletteGroups.AbsorbLeavesGiven | src/orchestrators/common/determinePalettesToEmit.ts:95-97 | the groups a round keeps for later are groups it was given |
| PaletteGroups.AbsorbCap | src/orchestrators/common/determinePalettesToEmit.ts:88 | a round either absorbs nothing or ends with at most 16 colours |
| PaletteGroups.AbsorbCovers | src/orchestrators/common/determinePalettesToEmit.ts:88-94 | a round's palette holds its starting colours and those of every absorbed group, and its tiles include theirs |
| PaletteGroups.MergeAllKeepsMembers | src/orchestrators/common/determinePalettesToEmit.ts:74-104 | merging keeps every tile with its multiplicity |
| PaletteGroups.MergeAllCap | src/orchestrators/common/determinePalettesToEmit.ts:74-104 | every output palette has at most 16 colours unless it is an input group passed through unchanged |
| PaletteGroups.MergeAllCovers | src/orchestrators/common/determinePalettesToEmit.ts:74-104 | every input group ends up inside some output group: its colours in the palette, its tiles in the group |
| PaletteGroups.MergeAllCover | src/orchestrators/common/determinePalettesToEmit.ts:74-104 | names that output group |
| PaletteGroups.MergeAllCanonical | src/orchestrators/common/determinePalettesToEmit.ts:66-104 | canonical inputs give canonical output palettes |
| PaletteGroups.AbsorbCanonical | src/orchestrators/common/determinePalettesToEmit.ts:86-94 | a round keeps its palette canonical |
| PaletteSort.InsertColor | src/orchestrators/common/determinePalettesToEmit.ts:17-27 | inserting one colour makes the palette one longer |
| PaletteSort.InsertColorPerm | src/orchestrators/common/determinePalettesToEmit.ts:17-27 | inserting adds that colour and loses none |
| PaletteSort.InsertColorSorted | src/orchestrators/common/determinePalettesToEmit.ts:17-27 | inserting into a sorted palette keeps it sorted under the comparator (transparent first, then ascending) |
| PaletteSort.SortColors | src/orchestrators/common/determinePalettesToEmit.ts:15-27 | the sort step is a permutation and sorted under that comparator |
| PaletteSort.UniqSorted | src/orchestrators/common/determinePalettesToEmit.ts:29 | removing repeats from a sorted palette keeps it sorted |
| PaletteSort.SortPalette | src/orchestrators/common/determinePalettesToEmit.ts:14-30 | the result holds the palette's colours, each once, transparent first when present and the rest strictly ascending |
| PaletteSort.TransparentFirst | src/orchestrators/common/determinePalettesToEmit.ts:18-24 | in a sorted palette the transparent word leads when present |
| PaletteSort.CanonicalUnique | src/orchestrators/common/determinePalettesToEmit.ts:14-30 | two sorted palettes without repeats with the same colours are equal |
| PaletteSort.SortPaletteBySet | src/orchestrators/common/determinePalettesToEmit.ts:14-30 | the sorted palette depends only on the set of colours |
| PaletteSort.SortPaletteIdempotent | src/orchestrators/common/determinePalettesToEmit.ts:14-30 | sorting twice is sorting once |
| PaletteSort.SortPaletteOfCanonical | src/orchestrators/common/determinePalettesToEmit.ts:14-30 | a sorted palette without repeats is left as it is |
| PaletteSort.DistinctCard | src/orchestrators/common/determinePalettesToEmit.ts:29 | a palette without repeats has as many entries as colours |
| PaletteSort.MergeTwoPalettes | src/orchestrators/common/determinePalettesToEmit.ts:66-72 | the merge is the canonical palette of the union of colours, as long as the union |
| PaletteSort.MergeTwoPalettesCommutes | src/orchestrators/common/determinePalettesToEmit.ts:66-72 | the merge does not depend on the order of its arguments |
| PaletteLookup.FindGroup | src/orchestrators/common/determinePalettesToEmit.ts:126-132 | `findPalette` gives the first group whose tiles include the tile, and none exactly when no group holds it |
| PaletteLookup.FindGroupFinds | src/orchestrators/common/determinePalettesToEmit.ts:126-132 | a group is found exactly when the map holds the tile somewhere |
| PaletteLookup.AllMembersUpdate | src/orchestrators/common/determinePalettesToEmit.ts:48-49 | replacing one group trades its tiles for the new group's |
| PaletteLookup.AddToGroupsMembers | src/orchestrators/common/determinePalettesToEmit.ts:48-55 | filing a tile adds exactly that tile to the map |
| PaletteLookup.GroupedKeepsMembers | src/orchestrators/common/determinePalettesToEmit.ts:32-64 | `buildPaletteMap` files every non-null tile exactly once and invents none |
| PaletteLookup.MembersWithSound | src/orchestrators/common/determinePalettesToEmit.ts:38-56 | a tile filed under a palette comes from an entry |
| PaletteLookup.MembersWithSource | src/orchestrators/common/determinePalettesToEmit.ts:38-56 | and that entry's canonical palette is the palette it is filed under |
| PaletteLookup.GroupedSound | src/orchestrators/common/determinePalettesToEmit.ts:32-64 | every tile of a group comes from an entry whose canonical palette is the group's palette |
| PaletteLookup.AbsorbSound | src/orchestrators/common/determinePalettesToEmit.ts:83-98 | a tile a round ends with was the group's own or comes from an absorbed group whose colours the round's palette holds |
| PaletteLookup.MergeAllSound | src/orchestrators/common/determinePalettesToEmit.ts:74-104 | no tile is moved to a merged palette that lacks its input group's colours |
| PaletteLookup.CanonicalPaletteCovers | src/orchestrators/common/determinePalettesToEmit.ts:43-44 | the canonical palette holds every pixel's 16-bit colour, and only those and transparency |
| PaletteLookup.ConvertedHolds | src/api/palette/convertTo16Bit.ts:49-51 | a converted palette holds exactly the words of its colours |
| PaletteLookup.MergedGroupServes | src/orchestrators/common/determinePalettesToEmit.ts:173-178 | every tile of a merged group comes from an entry whose every pixel colour the group's palette holds |
| PaletteLookup.CoversByElems | src/orchestrators/common/determinePalettesToEmit.ts:43-44 | a palette holding a tile's canonical colours holds transparency and every pixel's colour |
| PaletteLookup.GroupedCanonical | src/orchestrators/common/determinePalettesToEmit.ts:32-64 | every palette of the map is canonical |
| PaletteLookup.Pad16 | src/orchestrators/common/determinePalettesToEmit.ts:106-124 | a palette of at most 16 colours is kept and filled with black up to 16 entries |
| PalettesToEmit.EmitEntriesSound | src/orchestrators/common/determinePalettesToEmit.ts:163-168 | every tile the filter lets through emits its palette and is handed over under its own position and image |
| PalettesToEmit.EmitEntriesMembers | src/orchestrators/common/determinePalettesToEmit.ts:163-168 | the filter keeps exactly the non-null tiles whose `emitPalette` is absent or true |
| PalettesToEmit.AssignPalettes | src/orchestrators/common/determinePalettesToEmit.ts:134-157 | the loop succeeds exactly when every non-null tile is in some merged group; then each such tile gets its group's palette and the index of that palette plus `start`; otherwise the lookup error |
| PalettesToEmit.PadTo16Values | src/orchestrators/common/determinePalettesToEmit.ts:106-124 | more than 16 colours is an error; otherwise the palette followed by black up to 16 entries |
| PalettesToEmit.PadAll | src/orchestrators/common/determinePalettesToEmit.ts:194 | the map succeeds exactly when no palette exceeds 16 colours, padding each in order |
| PalettesToEmit.DeterminePalettesToEmit | src/orchestrators/common/determinePalettesToEmit.ts:159-195 | groups and merges the emitting tiles, assigns every non-null tile its palette (or fails, arena as that step left it) and returns the padded bank |
| PalettesToEmit.PadPalettes | src/orchestrators/common/determinePalettesToEmit.ts:194 | the padding loop computes the same as the map |
| PalettesToEmit.MergedHolds | src/orchestrators/common/determinePalettesToEmit.ts:173-178 | the merged map holds exactly the non-null tiles that emit their palette |
| PalettesToEmit.OptedOutTileFails | src/orchestrators/common/determinePalettesToEmit.ts:140-152 | a tile with `emitPalette` false is in no group, so assigning it a palette throws |
| PalettesToEmit.EmittingTileAssigned | src/orchestrators/common/determinePalettesToEmit.ts:145-155 | an emitting tile gets the palette of the first merged group holding it and that position plus `start` as index, and the palette holds all its pixels' colours |
| PalettesToEmit.MergedPaletteServes | src/orchestrators/common/determinePalettesToEmit.ts:173-178 | every tile of a merged group is served by the group's palette |
| PalettesToEmit.AssignableIff | src/orchestrators/common/determinePalettesToEmit.ts:159-195 | assignment succeeds on all cells exactly when no non-null tile opts out of palette building |
| PalettesToEmit.BankHoldsTilePalette | src/orchestrators/common/determinePalettesToEmit.ts:154-155 | when padding succeeds, the bank entry at a tile's index less `start` begins with the palette the tile was given |
| PalettesLegacy.AllSourcesHold | src/orchestrators/common/determinePalettes.ts:229-238 | the `flat(2)` collection loses no source of any generator |
| PalettesLegacy.AllSourcesFrom | src/orchestrators/common/determinePalettes.ts:229-238 | every collected source comes from some generator's cell |
| PalettesLegacy.SourceEntries | src/orchestrators/common/determinePalettes.ts:76-78 | the older `buildPaletteMap` sees every source, none null, under its own image |
| PalettesLegacy.SourceEntriesMembers | src/orchestrators/common/determinePalettes.ts:76-78 | and hands over exactly the collected sources |
| PalettesLegacy.Rebuild | src/orchestrators/common/determinePalettes.ts:200-213 | the nested maps keep every generator and the shape of its images, rows and cells, each cell replaced by its record |
| PalettesLegacy.AssignPalettesForGenerators | src/orchestrators/common/determinePalettes.ts:167-214 | succeeds exactly when every source has a group, with the lookup error otherwise; on success every cell becomes the source with its palette and index |
| PalettesLegacy.PadTo16ValuesLegacy | src/orchestrators/common/determinePalettes.ts:142-154 | 16 colours or fewer are filled with black to 16; a longer palette comes back unchanged |
| PalettesLegacy.DeterminePalettes | src/orchestrators/common/determinePalettes.ts:216-269 | never fails, relabels every source with its merged palette and index, and returns the merged palettes in order, padded |
| PalettesLegacy.CollectSources | src/orchestrators/common/determinePalettes.ts:231-238 | the generator loop collects every generator's sources in order |
| PalettesLegacy.PadLegacyBank | src/orchestrators/common/determinePalettes.ts:267 | the bank is each palette padded the older way |
| PalettesLegacy.EverySourceFound | src/orchestrators/common/determinePalettes.ts:156-165 | every collected source is held by the merged map, and its group's palette serves its image, so the lookup and the index check never fail |
| PalettesLegacy.LegacyMergedKeeps | src/orchestrators/common/determinePalettes.ts:243-248 | grouping and merging lose no source |
| PaletteScenarios.CanonicalIs | src/orchestrators/common/determinePalettesToEmit.ts:43-44 | a tile's canonical palette is the canonical list of transparency and its pixels' words |
| PaletteScenarios.MergeIs | src/orchestrators/common/determinePalettesToEmit.ts:66-72 | a merge is the canonical list of the union of colours |
| PaletteScenarios.ScenarioPalette1 | src/orchestrators/common/__tests__/determinePalettesToEmit.test.ts:18-24 | a black-and-red tile's palette is transparent, black, red |
| PaletteScenarios.ScenarioPalette2 | src/orchestrators/common/__tests__/determinePalettesToEmit.test.ts:49-51 | a black-white-red tile's palette is its canonical five-entry list |
| PaletteScenarios.ScenarioPalette3 | src/orchestrators/common/__tests__/determinePalettesToEmit.test.ts:52-54 | a black-red-green tile's palette is its canonical list |
| PaletteScenarios.ScenarioMerge12 | src/orchestrators/common/__tests__/determinePalettesToEmit.test.ts:45-56 | the first two scenario palettes merge into their union |
| PaletteScenarios.ScenarioMerge123 | src/orchestrators/common/__tests__/determinePalettesToEmit.test.ts:58-64 | the third merges in, giving transparent, green, white, black, red |
| PaletteScenarios.ScenarioPalettesDiffer | src/orchestrators/common/__tests__/determinePalettesToEmit.test.ts:45-56 | the three scenario palettes are pairwise different |
| PaletteScenarios.GroupedSnocNew | src/orchestrators/common/determinePalettesToEmit.ts:50-55 | an entry whose palette no group has opens a group at the end |
| PaletteScenarios.OneEntryMerged | src/orchestrators/common/determinePalettesToEmit.ts:173-178 | a single entry makes one merged group with its canonical palette |
| PaletteScenarios.TwoApartGrouped | src/orchestrators/common/determinePalettesToEmit.ts:32-64 | two entries with different palettes make one group each, in order |
| PaletteScenarios.ThreeApartGrouped | src/orchestrators/common/determinePalettesToEmit.ts:32-64 | three entries with pairwise different palettes make one group each, in order |
| PaletteScenarios.ThreeGroupsMerged | src/orchestrators/common/determinePalettesToEmit.ts:74-104 | three groups merge into one when the union of the first two takes the third |
| PaletteScenarios.ScenarioEntriesMerged | src/orchestrators/common/__tests__/determinePalettesToEmit.test.ts:45-73 | the three scenario tiles end in one group holding all five colours |
| PaletteScenarios.PaddedWith | src/orchestrators/common/determinePalettesToEmit.ts:117-123 | a palette of `16 - n` colours is padded with `n` blacks |
| PaletteScenarios.AssignedSingle | src/orchestrators/common/determinePalettesToEmit.ts:145-155 | with one group holding only the tile, the tile gets that palette and index `start` |
| PaletteScenarios.WithPaletteSingle | src/orchestrators/common/determinePalettes.ts:182-197 | with one group holding only the source, the older code gives it that palette and index `start` |
| PaletteScenarios.OneTileScenario | src/orchestrators/common/__tests__/determinePalettesToEmit.test.ts:17-43 | one black-and-red tile: one group, palette transparent-black-red at index `start`, banked with thirteen blacks |
| PaletteScenarios.ThreeTilesScenario | src/orchestrators/common/__tests__/determinePalettesToEmit.test.ts:45-73 | three tiles share one group whose bank entry is transparent, green, white, black, red and eleven blacks |
| PaletteScenarios.OneSourceScenario | src/orchestrators/common/__tests__/determinePalettes.test.ts:17-51 | the older code gives one black-and-red source palette transparent-black-red and index `start`, banked with thirteen blacks |
| PaletteScenarios.ThreeSourcesScenario | src/orchestrators/common/__tests__/determinePalettes.test.ts:53-82 | across two generators the three sources share one palette: transparent, green, white, black, red |
| SromEmit.Priorities | src/orchestrators/sromOrchestrator/emitSromBinary.ts:41 | one priority per tile, an absent priority counting as 0 |
| SromEmit.EmitSromBinary | src/orchestrators/sromOrchestrator/emitSromBinary.ts:23-66 | the filter, the sort and the splice loop compute the SROM image or the missing-payload error |
| SromEmit.SpliceAll | src/orchestrators/sromOrchestrator/emitSromBinary.ts:51-63 | the `forEach` splices every tile's payload in order, throwing at the first tile without one |
| SromEmit.SortedKeyed | src/orchestrators/sromOrchestrator/emitSromBinary.ts:24-27 | every tile that survives the filter has a slot |
| SromEmit.SplicesErr | src/orchestrators/sromOrchestrator/emitSromBinary.ts:52-56 | once a splice has thrown, later tiles change nothing |
| SromEmit.EmitsIff | src/orchestrators/sromOrchestrator/emitSromBinary.ts:24-45 | a tile is emitted exactly when it is no duplicate, has a slot, and no tile of the input claiming that slot (duplicates included) has a higher priority |
| SromEmit.SplicesAt | src/orchestrators/sromOrchestrator/emitSromBinary.ts:51-63 | after the splices byte `k` of slot `i` is the last claiming tile's byte, else what was there |
| SromEmit.WinnerSnoc | src/orchestrators/sromOrchestrator/emitSromBinary.ts:38-40 | the last tile claiming a slot, after one more tile, is that tile if it claims the slot |
| SromEmit.SpliceOne | src/orchestrators/sromOrchestrator/emitSromBinary.ts:58-62 | one splice writes the 32 payload bytes of its slot and leaves every other byte and the length as they were |
| SromEmit.SlotApart | src/orchestrators/sromOrchestrator/emitSromBinary.ts:58-62 | the 32 bytes of two different slots do not overlap |
| SromEmit.SlotContents | src/orchestrators/sromOrchestrator/emitSromBinary.ts:38-40 | with payloads of 32 bytes and slots below 4096 the image is 128 KiB, and each slot holds the payload of the last emitted tile that claims it, in input order, or zeros |
| SromEmit.SortedWinner | src/orchestrators/sromOrchestrator/emitSromBinary.ts:47 | the stable sort does not change which tile claiming a slot comes last |
| SromEmit.FitsPerm | src/orchestrators/sromOrchestrator/emitSromBinary.ts:47 | sorting keeps every payload and slot in range |
| SromEmit.MissingPayloadThrows | src/orchestrators/sromOrchestrator/emitSromBinary.ts:52-56 | a tile to emit without a payload makes the call throw |
| SromEmit.SplicesThrow | src/orchestrators/sromOrchestrator/emitSromBinary.ts:52-56 | a payload-less tile anywhere in the run makes it throw |
| SromEmit.SplicesThrown | src/orchestrators/sromOrchestrator/emitSromBinary.ts:52-56 | the missing payload is the only error |
| SromPositions.UsedIndices | src/orchestrators/sromOrchestrator/positionSroms.ts:42-47 | the used set is exactly the slots the placed tiles already have |
| SromPositions.NextFree | src/orchestrators/sromOrchestrator/positionSroms.ts:54-56 | the inner loop stops at the first unused slot from the cursor on |
| SromPositions.Slots | src/orchestrators/sromOrchestrator/positionSroms.ts:53-60 | `n` passes hand out `n` unused slots from the cursor on, strictly increasing |
| SromPositions.SlotsNoGaps | src/orchestrators/sromOrchestrator/positionSroms.ts:53-60 | every unused slot between the cursor and the last one handed out is handed out |
| SromPositions.Pops | src/orchestrators/sromOrchestrator/positionSroms.ts:53-60 | the passes keep the number of tiles |
| SromPositions.Positioned | src/orchestrators/sromOrchestrator/positionSroms.ts:21-61 | positioning keeps the number of tiles |
| SromPositions.PositionSroms | src/orchestrators/sromOrchestrator/positionSroms.ts:21-61 | the arena ends as the free tiles popped, last first, into unused slots from 33 on |
| SromPositions.PopLoop | src/orchestrators/sromOrchestrator/positionSroms.ts:53-60 | the outer loop computes those passes |
| SromPositions.SkipUsed | src/orchestrators/sromOrchestrator/positionSroms.ts:54-56 | the inner loop computes the next free slot |
| SromPositions.PopsAt | src/orchestrators/sromOrchestrator/positionSroms.ts:58-59 | the passes touch only `sromIndex`; an unpopped tile is unchanged; a popped tile ends with a slot |
| SromPositions.PopsSlot | src/orchestrators/sromOrchestrator/positionSroms.ts:58-59 | the `k`-th pop from the back gets the `k`-th slot handed out |
| SromPositions.FreeInInputOrder | src/orchestrators/sromOrchestrator/positionSroms.ts:36-40 | the tiles that can go anywhere, read from the array the stable sort reordered in place, are in input order |
| SromPositions.PositionedKeeps | src/orchestrators/sromOrchestrator/positionSroms.ts:38-40 | only `sromIndex` changes; a tile that had a slot or is a duplicate is left as it was |
| SromPositions.EveryNonDuplicatePlaced | src/orchestrators/sromOrchestrator/positionSroms.ts:38-60 | afterwards every non-duplicate tile has a slot |
| SromPositions.PopsOrder | src/orchestrators/sromOrchestrator/positionSroms.ts:53-60 | later pops get higher slots, each unused and from the cursor on |
| SromPositions.PopsNoGaps | src/orchestrators/sromOrchestrator/positionSroms.ts:53-60 | every unused slot up to the first tile's slot goes to some tile |
| SromPositions.NewSlots | src/orchestrators/sromOrchestrator/positionSroms.ts:49-60 | an earlier free tile gets a higher slot than a later one; every new slot is at least 33 and is no tile's preset slot |
| SromPositions.LastGetsLowest | src/orchestrators/sromOrchestrator/positionSroms.ts:51-59 | the last free tile gets the first unused slot from 33 |
| SromPositions.PopsFirst | src/orchestrators/sromOrchestrator/positionSroms.ts:54-59 | the first pass gives the last tile the next free slot |
| SromPositions.NoGaps | src/orchestrators/sromOrchestrator/positionSroms.ts:49-60 | every unclaimed slot from 33 to the highest handed out goes to a free tile |
| SromPositions.FreeReady | src/orchestrators/sromOrchestrator/positionSroms.ts:38-40 | the free tiles are arena tiles, none twice |
| SromEmitLegacy.LegacyEmitSrom | src/sromOrchestrator/emitSromBinary.ts:26-51 | on success the older image is 128 KiB; the only errors are a missing payload and padding that is too small |
| SromEmitLegacy.LegacyEmitSromBinary | src/sromOrchestrator/emitSromBinary.ts:26-51 | the sort, the walk and the padding compute that result |
| SromEmitLegacy.WalkAll | src/sromOrchestrator/emitSromBinary.ts:33-48 | the `for` loop over the sorted tiles computes the walk |
| SromEmitLegacy.FillGap | src/sromOrchestrator/emitSromBinary.ts:40-43 | the gap loop appends one empty 32-byte tile per slot up to the tile's slot and moves the cursor there |
| SromEmitLegacy.WalkErr | src/sromOrchestrator/emitSromBinary.ts:45 | once the walk has thrown, later tiles change nothing |
| SromEmitLegacy.WalkThrown | src/sromOrchestrator/emitSromBinary.ts:45 | the missing payload is the walk's only error |
| SromEmitLegacy.LegacyLayout | src/sromOrchestrator/emitSromBinary.ts:26-51 | when no two written tiles share a slot and all fit, every payload lands at its own slot and zeros everywhere else |
| SromEmitLegacy.LaidPads | src/sromOrchestrator/emitSromBinary.ts:50 | padding a laid-out stream gives the whole layout |
| SromEmitLegacy.LayoutByte | src/sromOrchestrator/emitSromBinary.ts:40-47 | in such an image byte `k` of slot `i` is that slot's tile's byte, or zero |
| SromEmitLegacy.WriterIn | src/sromOrchestrator/emitSromBinary.ts:36-38 | a slot's writer is a tile of the list that is no duplicate and claims that slot |
| SromEmitLegacy.LayablePerm | src/sromOrchestrator/emitSromBinary.ts:27 | the sort orders by slot, keeps the list layable and keeps every slot's writers |
| SromEmitLegacy.WalkLaid | src/sromOrchestrator/emitSromBinary.ts:33-48 | the walk over sorted, layable tiles succeeds and lays them out |
| SromEmitLegacy.LaidStep | src/sromOrchestrator/emitSromBinary.ts:34-47 | one written or skipped tile keeps the layout invariant |
| SromEmitLegacy.LaidSkip | src/sromOrchestrator/emitSromBinary.ts:36-38 | a duplicate or slotless tile changes neither the stream nor any slot's writer |
| SromEmitLegacy.AtOrPastCursor | src/sromOrchestrator/emitSromBinary.ts:40-43 | in sorted order a written tile never sits below the cursor |
| SromEmitLegacy.NotTwice | src/sromOrchestrator/emitSromBinary.ts:36-47 | in a layable list a slot already written is not written again |
| SromEmitLegacy.LaidWrite | src/sromOrchestrator/emitSromBinary.ts:40-47 | a written tile at or past the cursor keeps the layout invariant |
| SromEmitLegacy.WriteLayout | src/sromOrchestrator/emitSromBinary.ts:40-47 | such a tile appends the gap's zeros and then its payload |
| SromEmitLegacy.LegacyMissingPayloadThrows | src/sromOrchestrator/emitSromBinary.ts:45 | a written tile without a payload makes the older emitter throw |
| SromEmitLegacy.WalkGrows | src/sromOrchestrator/emitSromBinary.ts:33-48 | whatever the order and however many tiles share a slot, the stream holds 32 bytes per slot passed and the cursor is past every written slot |
| SromEmitLegacy.LegacyOverrunThrows | src/sromOrchestrator/emitSromBinary.ts:50 | a written tile at a slot past the image makes padding throw |
| SromEmitLegacy.SharedSlotAppendsBoth | src/sromOrchestrator/emitSromBinary.ts:40-47 | two written tiles claiming slot `m` are both appended, the second landing in slot `m + 1` |
| CromEmit.EmptyTile | src/orchestrators/cromOrchestrator/emitCromBinaries.ts:20 | the empty tile is 64 zero bytes in both planes |
| CromEmit.EmitCrom | src/orchestrators/cromOrchestrator/emitCromBinaries.ts:22-60 | the only way `emitCromBinaries` fails is a missing payload |
| CromEmit.EmitCromBinaries | src/orchestrators/cromOrchestrator/emitCromBinaries.ts:22-60 | the copy, the sort and the walk compute the two streams |
| CromEmit.EmitTile | src/orchestrators/cromOrchestrator/emitCromBinaries.ts:31-56 | one pass of the outer loop: skip duplicates, animation children and slotless tiles; otherwise fill the gap, push the master and its frames, and advance the cursor |
| CromEmit.FillGap | src/orchestrators/cromOrchestrator/emitCromBinaries.ts:37-41 | the gap loop pushes one empty tile per slot up to the master's slot in both streams |
| CromEmit.PushAll | src/orchestrators/cromOrchestrator/emitCromBinaries.ts:48-54 | the frame loop pushes each frame's payload in order, one slot each |
| CromEmit.PushErr | src/orchestrators/cromOrchestrator/emitCromBinaries.ts:50-51 | once the frame loop has thrown, later frames change nothing |
| CromEmit.WalkErr | src/orchestrators/cromOrchestrator/emitCromBinaries.ts:43-44 | once the walk has thrown, later tiles change nothing |
| CromEmit.PushThrown | src/orchestrators/cromOrchestrator/emitCromBinaries.ts:50-51 | the frame loop's only error is a missing payload |
| CromEmit.WalkThrown | src/orchestrators/cromOrchestrator/emitCromBinaries.ts:30-57 | the walk's only error is a missing payload |
| CromEmit.CromLayout | src/orchestrators/cromOrchestrator/emitCromBinaries.ts:22-60 | when every emitted master fits and no two runs overlap, each master and its frames sit at their slots, empty tiles fill the gaps, and nothing follows the last run |
| CromEmit.LaidSame | src/orchestrators/cromOrchestrator/emitCromBinaries.ts:23 | the layout depends on the tiles only by membership |
| CromEmit.WalkLaid | src/orchestrators/cromOrchestrator/emitCromBinaries.ts:30-57 | on tiles in slot order without overlapping runs each step extends the image |
| CromEmit.SortedInit | src/orchestrators/cromOrchestrator/emitCromBinaries.ts:23 | in slot order every earlier tile has no larger key |
| CromEmit.Clear | src/orchestrators/cromOrchestrator/emitCromBinaries.ts:37 | without overlaps the cursor is at or before the next master's slot |
| CromEmit.LaidSkip | src/orchestrators/cromOrchestrator/emitCromBinaries.ts:33-35 | a skipped tile leaves the image as it is |
| CromEmit.LaidStep | src/orchestrators/cromOrchestrator/emitCromBinaries.ts:37-56 | a master at or past the cursor extends the image by its run |
| CromEmit.StepRun | src/orchestrators/cromOrchestrator/emitCromBinaries.ts:37-56 | writing that master appends the gap fill and its run and moves the cursor to the run's end |
| CromEmit.LaidExtend | src/orchestrators/cromOrchestrator/emitCromBinaries.ts:37-56 | the old slots and the gap fill are kept |
| CromEmit.RunPlaced | src/orchestrators/cromOrchestrator/emitCromBinaries.ts:43-54 | the master's payload and its frames sit at the slots from the master's on |
| CromEmit.BlockKept | src/orchestrators/cromOrchestrator/emitCromBinaries.ts:38-51 | appending keeps every slot already written |
| CromEmit.RunKept | src/orchestrators/cromOrchestrator/emitCromBinaries.ts:38-51 | appending keeps every run already written |
| CromEmit.GapBlock | src/orchestrators/cromOrchestrator/emitCromBinaries.ts:37-41 | each slot the gap fill passes holds an empty tile |
| CromEmit.PushBlock | src/orchestrators/cromOrchestrator/emitCromBinaries.ts:43-44 | a payload pushed onto streams of `i` slots lands in slot `i` |
| CromEmit.PushLaid | src/orchestrators/cromOrchestrator/emitCromBinaries.ts:48-54 | frame `c` lands `c + 1` slots past the master, and the streams only grow |
| CromEmit.PushFrames | src/orchestrators/cromOrchestrator/emitCromBinaries.ts:48-54 | the frame loop succeeds and places every frame |
| CromEmit.FrameLast | src/orchestrators/cromOrchestrator/emitCromBinaries.ts:50-52 | the last frame lands next, the others stay |
| CromEmit.WalkGrows | src/orchestrators/cromOrchestrator/emitCromBinaries.ts:30-57 | whether or not runs overlap, both streams grow by 64 bytes per slot the cursor passes |
| CromEmit.EqualStreams | src/orchestrators/cromOrchestrator/emitCromBinaries.ts:59 | the two streams have equal lengths, a whole number of tiles |
| CromEmit.CollisionAppended | src/orchestrators/cromOrchestrator/emitCromBinaries.ts:37-56 | nothing checks for a taken slot: a second master claiming slot `m` is appended in slot `m + 1` |
| CromEmit.MissingPayloadThrows | src/orchestrators/cromOrchestrator/emitCromBinaries.ts:43-51 | a master or one of its frames without a payload makes the emitter throw |
| CromEmit.WalkThrow | src/orchestrators/cromOrchestrator/emitCromBinaries.ts:43-51 | such a tile anywhere in the walk makes it throw |
| CromEmit.PushThrow | src/orchestrators/cromOrchestrator/emitCromBinaries.ts:50-51 | a payload-less frame makes the frame loop throw |
| CromPositions.Select | src/orchestrators/cromOrchestrator/positionCroms.ts:39-51 | each list holds exactly the tiles of its kind (free; master of 3 frames; master of 7 frames), in tile order |
| CromPositions.PresetIndices | src/orchestrators/cromOrchestrator/positionCroms.ts:53-56 | the collected slots are exactly the preset slots |
| CromPositions.StartIndex | src/orchestrators/cromOrchestrator/positionCroms.ts:62-63 | the first slot handed out is above every preset slot, is 0 when nothing is preset, and is otherwise one past a preset slot |
| CromPositions.SetSlots | src/orchestrators/cromOrchestrator/positionCroms.ts:68-72 | placing a group keeps the number of tiles |
| CromPositions.ApplyGroup | src/orchestrators/cromOrchestrator/positionCroms.ts:66-83 | one group's writes keep the number of tiles |
| CromPositions.Apply | src/orchestrators/cromOrchestrator/positionCroms.ts:65-106 | a run of placements keeps the number of tiles |
| CromPositions.InitialQueues | src/orchestrators/cromOrchestrator/positionCroms.ts:39-51 | the three lists hold arena tiles, the master lists only masters |
| CromPositions.FifoPick | src/orchestrators/cromOrchestrator/positionCroms.ts:66-83 | one pass of the main loop takes exactly one entry off the lists: an 8-master on a multiple of 8, else a 4-master on a multiple of 4, else a free tile |
| CromPositions.Flush | src/orchestrators/cromOrchestrator/positionCroms.ts:90-106 | a flush loop empties its list |
| CromPositions.RoundUp8 | src/orchestrators/cromOrchestrator/positionCroms.ts:86-88 | the rounding loop stops at the first multiple of 8 at or above the cursor |
| CromPositions.RoundUpStep | src/orchestrators/cromOrchestrator/positionCroms.ts:86-88 | one step off a multiple of 8 keeps the target |
| CromPositions.RoundUpAligned | src/orchestrators/cromOrchestrator/positionCroms.ts:86-88 | on a multiple of 8 the loop does nothing |
| CromPositions.FifoStep | src/orchestrators/cromOrchestrator/positionCroms.ts:65-84 | the main loop is one pass followed by the rest |
| CromPositions.PositionLogPhases | src/orchestrators/cromOrchestrator/positionCroms.ts:62-106 | the placements are the main loop's, then the 8-flush's from the rounded cursor, then the 4-flush's |
| CromPositions.SetSlotsAt | src/orchestrators/cromOrchestrator/positionCroms.ts:68-71 | placing a group touches only `cromIndex`, and only of its tiles |
| CromPositions.ApplyAt | src/orchestrators/cromOrchestrator/positionCroms.ts:65-106 | a run touches only `cromIndex` |
| CromPositions.ApplyKeepsChildren | src/orchestrators/cromOrchestrator/positionCroms.ts:70-71 | a master's children are the same before and after any run |
| CromPositions.ApplyAppend | src/orchestrators/cromOrchestrator/positionCroms.ts:65-106 | placing `x` then `y` is placing `x + y` |
| CromPositions.PlaceOne | src/orchestrators/cromOrchestrator/positionCroms.ts:81-82 | placing a free tile is one write of the cursor |
| CromPositions.MasterReady | src/orchestrators/cromOrchestrator/positionCroms.ts:67-71 | earlier placements keep a master's frame list, whose frames are arena tiles |
| CromPositions.PlaceGroup | src/orchestrators/cromOrchestrator/positionCroms.ts:67-72 | places the master at the cursor and its children after it in order, returning the cursor past the group |
| CromPositions.PlaceChildren | src/orchestrators/cromOrchestrator/positionCroms.ts:70-72 | child `c` goes to the slot `c + 1` past the master's |
| CromPositions.FlushLifo | src/orchestrators/cromOrchestrator/positionCroms.ts:90-97 | the flush loop places masters from the back of the list until it is empty |
| CromPositions.FifoPass | src/orchestrators/cromOrchestrator/positionCroms.ts:66-83 | one pass of the newer loop body does what one pick says and keeps the lists well formed |
| CromPositions.FifoLoop | src/orchestrators/cromOrchestrator/positionCroms.ts:65-84 | the main loop runs until the free tiles are gone, leaving the master lists and cursor as the picks say |
| CromPositions.PositionCroms | src/orchestrators/cromOrchestrator/positionCroms.ts:21-107 | the arena ends as the placements of the three phases applied in order; every visited cell is an arena tile |
| CromPositionFacts.Masters | src/orchestrators/cromOrchestrator/positionCroms.ts:65-106 | lists the master of every group of a log, in placement order |
| CromPositionFacts.FifoChain | src/orchestrators/cromOrchestrator/positionCroms.ts:65-84 | the groups of the main loop lie back to back, with gaps only where the cursor skips a slot |
| CromPositionFacts.FlushChain | src/orchestrators/cromOrchestrator/positionCroms.ts:90-106 | the groups of a flush lie back to back from the cursor it starts at |
| CromPositionFacts.ChainSeparated | src/orchestrators/cromOrchestrator/positionCroms.ts:65-106 | groups laid one after another never overlap and end by the final cursor |
| CromPositionFacts.NewerSlotsDisjoint | src/orchestrators/cromOrchestrator/positionCroms.ts:54-106 | the groups of a run take disjoint runs of slots in placement order, all above every preset slot |
| CromPositionFacts.FifoShape | src/orchestrators/cromOrchestrator/positionCroms.ts:66-79 | the main loop puts 8-masters on multiples of 8 and 4-masters on multiples of 4, each followed by its own frames |
| CromPositionFacts.FlushShape | src/orchestrators/cromOrchestrator/positionCroms.ts:90-106 | a flush from an aligned cursor keeps every master aligned and the cursor aligned |
| CromPositionFacts.FifoRest | src/orchestrators/cromOrchestrator/positionCroms.ts:65-84 | the main loop ends with no free tiles and leaves tails of the two master lists |
| CromPositionFacts.KindsOfRest | src/orchestrators/cromOrchestrator/positionCroms.ts:86-106 | the leftover master lists still hold only masters of their kind |
| CromPositionFacts.InitialKinds | src/orchestrators/cromOrchestrator/positionCroms.ts:39-51 | each list built from the tiles holds only tiles of its kind |
| CromPositionFacts.NewerAligned | src/orchestrators/cromOrchestrator/positionCroms.ts:65-106 | in a whole run every 7-child master sits on a multiple of 8, every 3-child master on a multiple of 4, each followed by its own child frames |
| CromPositionFacts.PickCovers | src/orchestrators/cromOrchestrator/positionCroms.ts:66-83 | one pass places exactly one listed tile and removes it from the lists |
| CromPositionFacts.FifoCovers | src/orchestrators/cromOrchestrator/positionCroms.ts:65-84 | what the main loop places plus what it leaves is what was listed |
| CromPositionFacts.FlushOrder | src/orchestrators/cromOrchestrator/positionCroms.ts:90-106 | a flush places its list back to front, as `pop` takes it |
| CromPositionFacts.NewerCovers | src/orchestrators/cromOrchestrator/positionCroms.ts:39-106 | a run places every listed tile exactly as often as it is listed, and nothing else |
| CromPositionFacts.NewerMovesPresetMasters | src/orchestrators/cromOrchestrator/positionCroms.ts:46-51 | an animation master with a preset slot is still placed, since the master lists do not look at `cromIndex` |
| CromPositionFacts.SetSlotsDistinct | src/orchestrators/cromOrchestrator/positionCroms.ts:68-71 | placing a group of distinct tiles gives tile `k` the slot `k` past the first |
| CromPositionFacts.ApplyPlaced | src/orchestrators/cromOrchestrator/positionCroms.ts:65-106 | after a run writing each tile at most once, member `k` of a group holds the slot `k` past the group's first |
| CromPositionFacts.ApplyUntouched | src/orchestrators/cromOrchestrator/positionCroms.ts:65-106 | a tile no group writes keeps its value |
| CromPositionsLegacy.LegacyPick | src/cromOrchestrator/positionCroms.ts:62-79 | one pass of the older loop fires no branch exactly when no free tile is left and the cursor suits no remaining master; otherwise it takes exactly one entry off the lists |
| CromPositionsLegacy.LegacyStep | src/cromOrchestrator/positionCroms.ts:57-80 | while entries are left and a branch fires, the loop is that pass followed by the rest |
| CromPositionsLegacy.LegacyStops | src/cromOrchestrator/positionCroms.ts:57-80 | the older loop stops only with all three lists empty or in the state where no branch can fire |
| CromPositionsLegacy.LegacyChain | src/cromOrchestrator/positionCroms.ts:57-80 | the groups of the older loop lie one after another from the start cursor |
| CromPositionsLegacy.PickKinds | src/cromOrchestrator/positionCroms.ts:62-79 | a pass keeps each list to its kind and places a master with its own frames, on its alignment |
| CromPositionsLegacy.LegacyShape | src/cromOrchestrator/positionCroms.ts:57-80 | every master the older loop places sits on its alignment, followed by its own frames |
| CromPositionsLegacy.PickCovers | src/cromOrchestrator/positionCroms.ts:62-79 | a pass places exactly one listed tile and removes it from the lists |
| CromPositionsLegacy.LegacyCovers | src/cromOrchestrator/positionCroms.ts:57-80 | what the older loop places plus what it leaves is what was listed |
| CromPositionsLegacy.LegacyFreeOnly | src/cromOrchestrator/positionCroms.ts:57-80 | without animation masters the older loop always finishes, placing the free tiles from the back of the list at consecutive slots |
| CromPositionsLegacy.LegacyRunFacts | src/cromOrchestrator/positionCroms.ts:27-108 | a finished older run takes disjoint runs of slots above every preset slot, keeps masters aligned with their own frames after them, and places each listed tile once per listing |
| CromPositionsLegacy.LegacyFailsWhenStuck | src/cromOrchestrator/positionCroms.ts:57-80 | the older run fails exactly when its loop reaches a state with no free tile and a cursor that suits none of the masters left |
| CromPositionsLegacy.LegacyStuckExample | src/cromOrchestrator/positionCroms.ts:54-80 | on a concrete arena (one preset tile at 0, a 3-child master) the older loop never ends |
| CromPositionsLegacy.NewerStuckExample | src/orchestrators/cromOrchestrator/positionCroms.ts:62-106 | the newer allocator places the same master at slot 8 with its frames at 9 to 11 |
| CromPositionsLegacy.StuckInLegacy | src/cromOrchestrator/positionCroms.ts:57-80 | with no free tile, one 4-master and start cursor 1 the older loop never ends |
| CromPositionsLegacy.PlacedInNewer | src/orchestrators/cromOrchestrator/positionCroms.ts:65-106 | with no free tile, one 4-master and start cursor 1 the newer allocator places it at 8 |
| CromPositionsLegacy.StuckLists | src/cromOrchestrator/positionCroms.ts:31-55 | on the concrete arena the lists are one 4-master and nothing else, and the cursor starts at 1 |
| CromPositionsLegacy.StartAfterOnlyPreset | src/cromOrchestrator/positionCroms.ts:45-55 | with one preset tile the cursor starts just past its slot |
| CromPositionsLegacy.LegacyPickReady | src/cromOrchestrator/positionCroms.ts:62-79 | each pass leaves the lists ready for the next |
| CromPositionsLegacy.LegacyPass | src/cromOrchestrator/positionCroms.ts:62-79 | the older loop body writes the tiles and lists that one pass says |
| CromPositionsLegacy.LegacyLoop | src/cromOrchestrator/positionCroms.ts:57-86 | the older main loop writes the placements of the walk, and fails with `NeverTerminates` exactly when entries are left |
| CromPositionsLegacy.LegacyPositionCroms | src/cromOrchestrator/positionCroms.ts:20-109 | the older `positionCroms` passes exactly when its run finishes, with the placements of that run written to the tiles, and otherwise reports `NeverTerminates` |
| Eyecatcher.MainTableRowMajor | src/generators/eyecatcher/eyecatcher.ts:75-80 | the main-logo slot table has rows of 14, 15, 15 and 14 slots and, read row by row, is the slots 0 to 57 in order |
| Eyecatcher.ProGearTileAtFF | src/generators/eyecatcher/eyecatcher.ts:93-97 | the pro-gear-spec tile at row 0, column 4 is the one placed at slot 0xff |
| Eyecatcher.EyecatcherPaletteShape | src/generators/eyecatcher/eyecatcher.ts:114-133 | the system eyecatcher palette has 16 entries, the transparent colour first |
| Eyecatcher.MatchesIffPixels | src/generators/eyecatcher/eyecatcher.ts:135-142 | an image matches the system palette exactly when every pixel's colour, dark bit ignored, is in that palette |
| Eyecatcher.TileBlankWalk | src/generators/eyecatcher/eyecatcher.ts:199-210 | the loop answers blank exactly when every pixel is fully transparent or equal to the comparison colour |
| Eyecatcher.IsTileBlankAsWritten | src/generators/eyecatcher/eyecatcher.ts:4-7 | with the comparison colour `undefined`, a tile is blank exactly when every pixel is fully transparent |
| Eyecatcher.AsWrittenRefusesMagenta | src/generators/eyecatcher/eyecatcher.ts:246-256 | a tile of opaque magenta, which the error messages call blank, is refused as written and accepted as intended |
| Eyecatcher.IsTileBlank | src/generators/eyecatcher/eyecatcher.ts:190-211 | a tile is blank exactly when every pixel is fully transparent or opaque magenta |
| Eyecatcher.FlaggedFields | src/generators/eyecatcher/eyecatcher.ts:164-171 | flagging sets the palette, `emitPalette`, `paletteIgnoresDarkBit` and optionally the top priority, and changes nothing else |
| Eyecatcher.FlagTiles | src/generators/eyecatcher/eyecatcher.ts:162-173 | every tile of the matrix is flagged, nulls skipped, and every other tile is left as it was |
| Eyecatcher.FlagRow | src/generators/eyecatcher/eyecatcher.ts:163-172 | every tile of the row is flagged and every other tile is left as it was |
| Eyecatcher.GetSromSource | src/generators/eyecatcher/eyecatcher.ts:144-176 | a wrong size or a colour outside the palette is an error that changes nothing; otherwise every tile of the image is flagged with the system palette and the top priority |
| Eyecatcher.MainTilesMatchTable | src/generators/eyecatcher/eyecatcher.ts:243-244 | with the two right corners removed the main logo has exactly the shape of its slot table, the middle rows untouched |
| Eyecatcher.GetCromSources | src/generators/eyecatcher/eyecatcher.ts:217-269 | a wrong size, a colour outside the palette or a corner tile that is not blank is an error; otherwise the corners are removed and every remaining tile is flagged, without a priority |
| Eyecatcher.FlaggedOverAppend | src/generators/eyecatcher/eyecatcher.ts:281-328 | flagging one set of tiles and then another flags both |
| Eyecatcher.FlaggedOverPixels | src/generators/eyecatcher/eyecatcher.ts:162-173 | flagging leaves every tile's image as it was |
| Eyecatcher.AddSromSource | src/generators/eyecatcher/eyecatcher.ts:281-289 | a missing file is skipped; a bad one is an error; a good one is flagged and appended |
| Eyecatcher.AddProGearSource | src/generators/eyecatcher/eyecatcher.ts:291-308 | the pro-gear-spec file is also an error when its tile at 0xff is not blank |
| Eyecatcher.GetSromSources | src/generators/eyecatcher/eyecatcher.ts:271-331 | fails exactly when one of the given files is bad, with the first file's error; otherwise returns the matrices in file order, tagged with their names, every tile flagged |
| EyecatcherPositions.PlaceAll | src/generators/eyecatcher/eyecatcher.ts:178-188 | placing keeps the number of tiles |
| EyecatcherPositions.PlaceAllAt | src/generators/eyecatcher/eyecatcher.ts:178-188 | each tile is as it was or, when assigned, placed at the slot of its last assignment, a later one overwriting an earlier one |
| EyecatcherPositions.LastSlotAppend | src/generators/eyecatcher/eyecatcher.ts:178-188 | the last assignment of a joined list is the second part's when it has one |
| EyecatcherPositions.RowMisses | src/generators/eyecatcher/eyecatcher.ts:180-186 | a row none of whose assigned cells holds a tile assigns nothing to it |
| EyecatcherPositions.RowHits | src/generators/eyecatcher/eyecatcher.ts:180-186 | in a row of distinct tiles the tile at column `x` gets that column's entry |
| EyecatcherPositions.TableHits | src/generators/eyecatcher/eyecatcher.ts:179-187 | in a matrix of distinct tiles the tile at a cell with a table entry is last assigned that entry |
| EyecatcherPositions.TableMisses | src/generators/eyecatcher/eyecatcher.ts:179-187 | a tile in no cell with a table entry is never assigned |
| EyecatcherPositions.PlaceAllSnoc | src/generators/eyecatcher/eyecatcher.ts:181-185 | assigning a list and then one more entry is assigning the longer list |
| EyecatcherPositions.RowPlacementsPast | src/generators/eyecatcher/eyecatcher.ts:336-348 | columns past the end of the table row assign nothing |
| EyecatcherPositions.PlaceRow | src/generators/eyecatcher/eyecatcher.ts:180-186 | the inner loop leaves the arena as the row's placements say |
| EyecatcherPositions.PlaceAllAppend | src/generators/eyecatcher/eyecatcher.ts:178-188 | assigning one list and then another is assigning the two joined |
| EyecatcherPositions.SetSromTable | src/generators/eyecatcher/eyecatcher.ts:178-188 | every table cell's tile, row by row, gets the table's fix slot and loses its duplicate link, and nothing else changes |
| EyecatcherPositions.PlaceTableRow | src/generators/eyecatcher/eyecatcher.ts:179-187 | one pass of an outer loop extends the placements of the rows before it by row `y` |
| EyecatcherPositions.SromRowStep | src/generators/eyecatcher/eyecatcher.ts:179-180 | in a fitting table the inner loop of row `y` stops at the end of the table row |
| EyecatcherPositions.SetCromPositions | src/generators/eyecatcher/eyecatcher.ts:333-351 | every main-logo cell with a table entry gets that sprite slot and loses its duplicate and animation links; cells past the table are skipped |
| EyecatcherPositions.TablePlaced | src/generators/eyecatcher/eyecatcher.ts:179-187 | in a matrix of distinct tiles the tile at a table cell is placed at that entry, its other fields as they were |
| EyecatcherPositions.TableUntouched | src/generators/eyecatcher/eyecatcher.ts:179-187 | a tile in no table cell is left exactly as it was |
| EyecatcherPositions.MainLogoCovered | src/generators/eyecatcher/eyecatcher.ts:240-244 | the main logo of the right size, its corners removed, has a tile at every cell of the main table |
| EyecatcherPositions.Find | src/generators/eyecatcher/eyecatcher.ts:354-356 | finds a result whose input is the name, or none when no result has it |
| EyecatcherPositions.FindAppend | src/generators/eyecatcher/eyecatcher.ts:354-356 | a search of a joined list finds in the first part before the second |
| EyecatcherPositions.FindEntry | src/generators/eyecatcher/eyecatcher.ts:281-328 | a file's own entry is found by its name and another file's never is |
| EyecatcherPositions.SourcesFound | src/generators/eyecatcher/eyecatcher.ts:353-397 | with distinct file names each key finds the matrix of its own file among what `getSROMSources` returns |
| EyecatcherPositions.PlaceFound | src/generators/eyecatcher/eyecatcher.ts:354-363 | a found image is placed by its table; a missing one is skipped |
| EyecatcherPositions.SetSromPositions | src/generators/eyecatcher/eyecatcher.ts:353-397 | the four images, each looked up by its key, get their tables' fix slots in order; those not found are skipped |
| EyecatcherPositions.ExtractedFits | src/generators/eyecatcher/eyecatcher.ts:178-188 | a matrix cut from a fix-layer image fits a table with one row per band of eight pixel rows and no row wider than the image |
| EyecatcherPositions.FileFits | src/generators/eyecatcher/eyecatcher.ts:144-176 | a given file that passed its checks fits the table of its key |
| EyecatcherPositions.SourcesFit | src/generators/eyecatcher/eyecatcher.ts:271-397 | what a successful `getSROMSources` returns always has a tile at every cell of each found image's table |
| CromAnimations.FrameCountBounds | src/generators/cromAnimations/cromAnimations.ts:176-185 | the frame loop makes one frame per `16 * w`-pixel band of the image, a last partial band included, and none for an empty image |
| CromAnimations.StartIsProduct | src/generators/cromAnimations/cromAnimations.ts:178 | frame `f` starts `f * w` columns in |
| CromAnimations.StartMono | src/generators/cromAnimations/cromAnimations.ts:178 | later frames start later, by at least `w` columns |
| CromAnimations.StartOrder | src/generators/cromAnimations/cromAnimations.ts:178 | with a positive step frames start in frame order, in both directions |
| CromAnimations.ColumnSplitUnique | src/generators/cromAnimations/cromAnimations.ts:178-183 | a column inside a frame belongs to one frame and one offset only |
| CromAnimations.FramesOf | src/generators/cromAnimations/cromAnimations.ts:175-185 | makes as many frames as asked |
| CromAnimations.SplitFrames | src/generators/cromAnimations/cromAnimations.ts:175-185 | the loop produces the frames of the split, and an error where the source would loop forever (a step of zero or less on a non-empty image) |
| CromAnimations.FrameStartsInside | src/generators/cromAnimations/cromAnimations.ts:178 | a frame that starts inside the image is one of the frames made |
| CromAnimations.FrameCountCovers | src/generators/cromAnimations/cromAnimations.ts:178 | the frames together reach the end of the image |
| CromAnimations.FrameHolds | src/generators/cromAnimations/cromAnimations.ts:178-184 | column `Start(f, w) + k` of a row is column `k` of frame `f`, so no tile column is lost |
| CromAnimations.ColumnInFrame | src/generators/cromAnimations/cromAnimations.ts:178-184 | column `c` of a row is column `c % w` of frame `c / w` |
| CromAnimations.Apply | src/generators/cromAnimations/cromAnimations.ts:153-155 | one link keeps the number of tiles |
| CromAnimations.ApplyAll | src/generators/cromAnimations/cromAnimations.ts:149-158 | a run of links keeps the number of tiles |
| CromAnimations.ApplyAllAt | src/generators/cromAnimations/cromAnimations.ts:149-158 | however links alias, a tile gains, after the children it had, those it masters in link order, takes as master that of its last link as a child, and changes nothing else |
| CromAnimations.ApplyAllAppend | src/generators/cromAnimations/cromAnimations.ts:149-158 | applying one run of links and then another is applying the two joined |
| CromAnimations.ChildrenOfAppend | src/generators/cromAnimations/cromAnimations.ts:154 | the children from joined links are the two parts' children in order |
| CromAnimations.ParentOfAppend | src/generators/cromAnimations/cromAnimations.ts:155 | the master from joined links is the second part's when it has one |
| CromAnimations.RowNoChildren | src/generators/cromAnimations/cromAnimations.ts:151-156 | a row none of whose master cells holds a tile gives it no children |
| CromAnimations.RowChildren | src/generators/cromAnimations/cromAnimations.ts:151-156 | a master at one cell of a row gets the child tile below it |
| CromAnimations.FrameNoChildren | src/generators/cromAnimations/cromAnimations.ts:150-157 | a frame none of whose master cells holds a tile gives it no children |
| CromAnimations.FrameChildren | src/generators/cromAnimations/cromAnimations.ts:150-157 | a master at one cell gets exactly the child tile at that cell of one child frame |
| CromAnimations.NoChildren | src/generators/cromAnimations/cromAnimations.ts:149-158 | a tile in no master cell gains no children |
| CromAnimations.MasterDistinctOn | src/generators/cromAnimations/cromAnimations.ts:150-157 | a master tile at one master cell is at no other cell a child frame covers |
| CromAnimations.Column | src/generators/cromAnimations/cromAnimations.ts:149-158 | the column below a cell has one tile per child frame |
| CromAnimations.ColumnAt | src/generators/cromAnimations/cromAnimations.ts:149-158 | entry `f` of a column is the tile at that cell of child frame `f` |
| CromAnimations.AllChildren | src/generators/cromAnimations/cromAnimations.ts:149-158 | a master at one cell that every child frame covers gets the column of tiles below it, in frame order |
| CromAnimations.RowNoParent | src/generators/cromAnimations/cromAnimations.ts:151-156 | a tile in no child cell of a row gets no master from it |
| CromAnimations.RowParent | src/generators/cromAnimations/cromAnimations.ts:151-156 | a child at one cell of a row gets the master above it |
| CromAnimations.FrameNoParent | src/generators/cromAnimations/cromAnimations.ts:150-157 | a tile in no child cell of a frame gets no master from it |
| CromAnimations.FrameParent | src/generators/cromAnimations/cromAnimations.ts:150-157 | a child at one cell of a frame gets the master at that cell |
| CromAnimations.NoParent | src/generators/cromAnimations/cromAnimations.ts:149-158 | a tile that is no child gets no master |
| CromAnimations.AllParent | src/generators/cromAnimations/cromAnimations.ts:149-158 | a child tile that appears once is linked to the master at its cell |
| CromAnimations.MasterLinked | src/generators/cromAnimations/cromAnimations.ts:149-158 | a master at one cell, no child itself, with that cell in every child frame, gains exactly the column below it |
| CromAnimations.ChildLinked | src/generators/cromAnimations/cromAnimations.ts:149-158 | a child at one cell that is no master changes only its `childOf`, to the master at its cell |
| CromAnimations.UnlinkedUntouched | src/generators/cromAnimations/cromAnimations.ts:149-158 | a tile that is neither master nor child is left as it was |
| CromAnimations.ApplyAllSnoc | src/generators/cromAnimations/cromAnimations.ts:149-158 | applying links and then one more is applying the longer list |
| CromAnimations.LinkRow | src/generators/cromAnimations/cromAnimations.ts:151-156 | the innermost loop links every cell of one child row to the master cell above it |
| CromAnimations.LinkCell | src/generators/cromAnimations/cromAnimations.ts:153-155 | the loop body creates the child list if absent, appends the child and sets its master |
| CromAnimations.LinkFrame | src/generators/cromAnimations/cromAnimations.ts:150-157 | the middle loop links every row of one child frame |
| CromAnimations.LinkFrameRow | src/generators/cromAnimations/cromAnimations.ts:150-157 | one pass of the middle loop extends the links by row `y` |
| CromAnimations.ApplyChildTiles | src/generators/cromAnimations/cromAnimations.ts:145-159 | every child cell, frame by frame, row by row, is appended to the master at that cell and points back to it, as the link model says |
| CromAnimationSources.SliceWidth | src/generators/cromAnimations/cromAnimations.ts:139 | a row slice holds at most `w` cells, all inside the row |
| CromAnimationSources.SlicedFrame | src/generators/cromAnimations/cromAnimations.ts:178-184 | every frame from `g` on is the slice at its start column |
| CromAnimationSources.SlicedCell | src/generators/cromAnimations/cromAnimations.ts:136-142 | a cell of a frame exists exactly when its column is inside both the frame and the image row, and holds the image cell `Start(f, w) + x` |
| CromAnimationSources.FrameRowSliced | src/generators/cromAnimations/cromAnimations.ts:138-140 | row `y` of frame `f` is the slice of image row `y` from column `Start(f, w)` |
| CromAnimationSources.FramesSliced | src/generators/cromAnimations/cromAnimations.ts:175-185 | every frame the loop cuts is a slice of the image |
| CromAnimationSources.FramesSlicedFrom | src/generators/cromAnimations/cromAnimations.ts:175-185 | every frame from `g` on is a slice of the image |
| CromAnimationSources.FrameSliceOf | src/generators/cromAnimations/cromAnimations.ts:178-184 | frame `g` is the slice starting at column `Start(g, w)` |
| CromAnimationSources.SlicedFramesFit | src/generators/cromAnimations/cromAnimations.ts:194 | `applyChildTiles(frames[0], frames.slice(1))` meets a master tile at every child cell |
| CromAnimationSources.ColumnCovered | src/generators/cromAnimations/cromAnimations.ts:194 | every child frame has the cell of a master whose column the last frame has |
| CromAnimationSources.ChildColumn | src/generators/cromAnimations/cromAnimations.ts:194 | a master gets one child per later frame |
| CromAnimationSources.ChildColumnCells | src/generators/cromAnimations/cromAnimations.ts:194 | the children of the master at column `x` are the image cells `w + x`, `2 * w + x`, ... of its row |
| CromAnimationSources.ColumnCells | src/generators/cromAnimations/cromAnimations.ts:194 | the column of a master holds the image cells `(f + 1) * w + x` |
| CromAnimationSources.ColumnCell | src/generators/cromAnimations/cromAnimations.ts:194 | entry `f` of a master's column is the image cell `(f + 1) * w + x` |
| CromAnimationSources.MasterUnique | src/generators/cromAnimations/cromAnimations.ts:194 | with distinct tiles a master sits at one cell of the first frame only |
| CromAnimationSources.MasterNotAChild | src/generators/cromAnimations/cromAnimations.ts:194 | a master tile is in no child frame |
| CromAnimationSources.ChildUnique | src/generators/cromAnimations/cromAnimations.ts:194 | a child tile sits at one cell of the child frames only |
| CromAnimationSources.CellApart | src/generators/cromAnimations/cromAnimations.ts:178-184 | two different cells of the frames hold different tiles |
| CromAnimationSources.ChildNotInMaster | src/generators/cromAnimations/cromAnimations.ts:194 | a child tile is in no cell of the first frame |
| CromAnimationSources.MasterGetsColumn | src/generators/cromAnimations/cromAnimations.ts:187-195 | an auto-animation master gains, after its old children, the tiles at its cell of the later frames in frame order, and keeps its own master |
| CromAnimationSources.MasterFacts | src/generators/cromAnimations/cromAnimations.ts:194 | a master of the split meets what the linking needs of it |
| CromAnimationSources.MasterCellLinked | src/generators/cromAnimations/cromAnimations.ts:194 | a master of the first frame gains exactly its column |
| CromAnimationSources.ChildFacts | src/generators/cromAnimations/cromAnimations.ts:194 | a child of the split meets what the linking needs of it |
| CromAnimationSources.ChildGetsMaster | src/generators/cromAnimations/cromAnimations.ts:187-195 | a child at cell `(y, k)` of a later frame gets the tile at that cell of the first frame as its master, its children unchanged |
| CromAnimationSources.ChildCellLinked | src/generators/cromAnimations/cromAnimations.ts:194 | a child changes only its master, to the first frame's tile at its cell |
| CromAnimationSources.NotInFrames | src/generators/cromAnimations/cromAnimations.ts:178-184 | a tile at no cell of the image is at no cell of its frames |
| CromAnimationSources.OthersUntouched | src/generators/cromAnimations/cromAnimations.ts:187-195 | a tile at no cell of the image is left as it was |
| CromAnimationInputs.CustomProps | src/generators/cromAnimations/cromAnimations.ts:72-77 | the custom object holds exactly the fields other than `name`, `imageFile`, `tileWidth` and `autoAnimation`, with their values |
| CromAnimationInputs.CustomPropsIdempotent | src/generators/cromAnimations/cromAnimations.ts:72-77 | taking the custom object twice takes nothing more |
| CromAnimationInputs.CustomPropsKeepsOthers | src/generators/cromAnimations/cromAnimations.ts:72-77 | a record with none of the four keys is kept whole |
| CromAnimationInputs.AnimationFrames | src/generators/cromAnimations/cromAnimations.ts:168-197 | an auto animation that passes has exactly `autoAnimation` frames |
| CromAnimationInputs.AutoFramesFit | src/generators/cromAnimations/cromAnimations.ts:187-195 | an auto animation that passed has a first frame, and its later frames fit it, so `applyChildTiles` finds a master at every child cell |
| CromAnimationInputs.AnimationFramesSliced | src/generators/cromAnimations/cromAnimations.ts:175-185 | the frames of an animation that passed are its image's slices from column 0, as many as the loop makes |
| CromAnimationInputs.AutoAnimationChecked | src/generators/cromAnimations/cromAnimations.ts:187-193 | an auto animation fails exactly when the loop does not make `autoAnimation` frames |
| CromAnimationInputs.PlainAnimationKept | src/generators/cromAnimations/cromAnimations.ts:187-197 | an animation without `autoAnimation` keeps every frame the loop cuts and links nothing |
| CromAnimationInputs.AnimationSources | src/generators/cromAnimations/cromAnimations.ts:169-197 | the reduce body returns the animation's frames or error and leaves the arena with that animation's links applied |
| CromAnimationInputs.AllFilledSplit | src/generators/cromAnimations/cromAnimations.ts:167-199 | both parts of a run of loadable animations are loadable |
| CromAnimationInputs.AnimationsOfSplit | src/generators/cromAnimations/cromAnimations.ts:167-201 | the animations of all inputs are those before `i` followed by those from `i` on |
| CromAnimationInputs.AnimationsOfSnoc | src/generators/cromAnimations/cromAnimations.ts:167-201 | the next input's animations follow those of the inputs before it |
| CromAnimationInputs.Then | src/generators/cromAnimations/cromAnimations.ts:197 | joined results succeed exactly when both do, with the values in order; the first error wins |
| CromAnimationInputs.ChainAll | src/generators/cromAnimations/cromAnimations.ts:168-198 | a chain succeeds exactly when every result does, and then joins their values in order |
| CromAnimationInputs.ChainAppend | src/generators/cromAnimations/cromAnimations.ts:168-198 | two chains one after the other are the chain of both |
| CromAnimationInputs.ChainLinksAppend | src/generators/cromAnimations/cromAnimations.ts:168-198 | the links of two chains are the first's, then the second's unless the first fails |
| CromAnimationInputs.FramesEach | src/generators/cromAnimations/cromAnimations.ts:169-197 | gives each animation's own result |
| CromAnimationInputs.LinksEach | src/generators/cromAnimations/cromAnimations.ts:187-195 | gives each animation's own links |
| CromAnimationInputs.EachAppend | src/generators/cromAnimations/cromAnimations.ts:168-198 | results and links of joined runs are those of the parts joined |
| CromAnimationInputs.SourcesOfAll | src/generators/cromAnimations/cromAnimations.ts:164-202 | `getCROMSources` succeeds exactly when every animation does, and then gives all their frames in order |
| CromAnimationInputs.SourcesAppend | src/generators/cromAnimations/cromAnimations.ts:168-201 | the frames of two runs are the first's then the second's; the first error wins |
| CromAnimationInputs.LinksAppend | src/generators/cromAnimations/cromAnimations.ts:168-201 | the links of two runs are the first's, then the second's unless the first throws |
| CromAnimationInputs.SourcesSnocAt | src/generators/cromAnimations/cromAnimations.ts:168-198 | one more animation appends its frames and links after those before it |
| CromAnimationInputs.ErrSpreads | src/generators/cromAnimations/cromAnimations.ts:168-198 | an error among the first animations is the error of the whole run, with no links after it |
| CromAnimationInputs.InputSources | src/generators/cromAnimations/cromAnimations.ts:168-198 | the reduce over one input gives its animations' frames in order or the first error, and leaves the links made up to it in the arena |
| CromAnimationInputs.CromSources | src/generators/cromAnimations/cromAnimations.ts:164-202 | `getCROMSources` gives every animation's frames in input order or the first error, with the links made before that error left in the arena |
| CromAnimationInputs.InputStep | src/generators/cromAnimations/cromAnimations.ts:167-199 | one pass of the `map` adds the next input's frames and links |
| CromAnimationInputs.InputErr | src/generators/cromAnimations/cromAnimations.ts:167-201 | an error among the first inputs' animations is the error of them all |
| CromAnimationEmit.NumberOfFramesAsWritten | src/generators/cromAnimations/cromAnimations.ts:59-70 | the count is `autoAnimation` when truthy, otherwise the real quotient `width / 16 / (tileWidth ?? 1)`, not finite for a step of 0 |
| CromAnimationEmit.NumberOfFramesMatches | src/generators/cromAnimations/cromAnimations.ts:59-70 | the corrected count is the number of frames the animation was cut into |
| CromAnimationEmit.NumberOfFramesAgree | src/generators/cromAnimations/cromAnimations.ts:59-70 | the counts as written and corrected agree for an auto animation, and for another exactly when the width is a whole number of `16 * w`-pixel bands |
| CromAnimationEmit.NumberOfFramesFractional | src/generators/cromAnimations/cromAnimations.ts:69 | an image 40 pixels wide is cut into three frames while the count as written is 2.5 |
| CromAnimationEmit.ToCodeEmitTilesAt | src/generators/cromAnimations/cromAnimations.ts:48-57 | the code-emit matrix has the frame's shape, each cell the slot and palette index of the tile there |
| CromAnimationEmit.EmitFrames | src/generators/cromAnimations/cromAnimations.ts:92 | gives one code-emit matrix per frame |
| CromAnimationEmit.EmitsTargetIndex | src/generators/cromAnimations/cromAnimations.ts:103 | after `denormalizeDupes` a marked duplicate emits the slot of the tile it duplicates |
| CromAnimationEmit.ChunkFilled | src/generators/cromAnimations/cromAnimations.ts:86 | runs spliced off loaded frames are loaded |
| CromAnimationEmit.EmitAnimations | src/generators/cromAnimations/cromAnimations.ts:84-95 | gives one entry per animation |
| CromAnimationEmit.ToCodeEmitAnimations | src/generators/cromAnimations/cromAnimations.ts:79-96 | the `map` gives each animation the run that its own splice takes off the front of what is left |
| CromAnimationEmit.SpliceStep | src/generators/cromAnimations/cromAnimations.ts:85-86 | one pass takes animation `i`'s run off the front, and the rest is the later runs |
| CromAnimationEmit.EmitAnimationsOwn | src/generators/cromAnimations/cromAnimations.ts:79-96 | frames cut animation by animation, each as many as its count, come back to the animation they were cut for, whatever follows them |
| CromAnimationEmit.SliceFilled | src/generators/cromAnimations/cromAnimations.ts:114-117 | slices of loaded frames are loaded |
| CromAnimationEmit.EmitGroups | src/generators/cromAnimations/cromAnimations.ts:106-128 | gives one group per input |
| CromAnimationEmit.CreateAnimationDataForCodeEmit | src/generators/cromAnimations/cromAnimations.ts:98-129 | the groups are those of the inputs over the denormalized frames, the arena itself left as it was |
| CromAnimationEmit.EmitInputs | src/generators/cromAnimations/cromAnimations.ts:105-128 | the `map` with the running `sliceIndex` gives each input the group made from its own slice |
| CromAnimationEmit.SliceStep | src/generators/cromAnimations/cromAnimations.ts:107-118 | one pass makes input `i`'s group from its slice and moves the index past it |
| CromAnimationEmit.CellsInFilled | src/generators/cromAnimations/cromAnimations.ts:103 | loaded frames have their cells in the arena |
| CromAnimationEmit.EmitGroupsOwn | src/generators/cromAnimations/cromAnimations.ts:98-129 | frames laid out input by input, each input's run as long as its frame total, come back to the input they were made for |
| Splices.SpliceCount | src/generators/cromAnimations/cromAnimations.ts:86 | `splice(0, n)` removes `n` elements when there are that many, and never more than there are |
| Splices.Offset | src/generators/cromAnimations/cromAnimations.ts:84-86 | the splices before a pass never remove more than the array held |
| Splices.ChunksNext | src/generators/cromAnimations/cromAnimations.ts:86 | each pass takes its run off the front of what is left and keeps the rest |
| Splices.ChunkIn | src/generators/cromAnimations/cromAnimations.ts:86 | a spliced run holds only elements of the array |
| Splices.OffsetOwn | src/generators/cromAnimations/cromAnimations.ts:84-86 | with runs laid back to back, each as long as its count, each pass starts where the runs before it end |
| Splices.ChunksOwn | src/generators/cromAnimations/cromAnimations.ts:84-86 | runs laid back to back, each as long as its count, are spliced off again run by run |
| Splices.SliceLength | src/generators/cromAnimations/cromAnimations.ts:114-117 | a slice from inside the array ends inside it |
| Splices.JsSliceLength | src/generators/cromAnimations/cromAnimations.ts:114-118 | a slice holds as many elements as its clamped bounds allow |
| Splices.SliceStart | src/generators/cromAnimations/cromAnimations.ts:105-118 | the running `sliceIndex` never passes the end of the array |
| Splices.SliceNext | src/generators/cromAnimations/cromAnimations.ts:118 | `sliceIndex` moves past exactly what the slice held |
| Splices.SliceIn | src/generators/cromAnimations/cromAnimations.ts:114-117 | a slice holds only elements of the array |
| Splices.SliceStartOwn | src/generators/cromAnimations/cromAnimations.ts:105-118 | with runs laid back to back, each as long as its total, slice `i` starts where the runs before it end |
| Splices.SlicesOwn | src/generators/cromAnimations/cromAnimations.ts:105-118 | runs laid back to back, each as long as its total, are sliced off again run by run |
| Sorting.Filter | src/orchestrators/sromOrchestrator/positionSroms.ts:38-44 | the filter keeps only elements the predicate accepts |
| Sorting.FilterSubMultiset | src/orchestrators/sromOrchestrator/positionSroms.ts:38-44 | the filter keeps elements of its input only, each at most as often |
| Sorting.FilterKeeps | src/orchestrators/sromOrchestrator/positionSroms.ts:38-44 | the filter keeps every element the predicate accepts |
| Sorting.FilterDistinct | src/orchestrators/sromOrchestrator/positionSroms.ts:38-44 | the filter of a list without repeats has none |
| Sorting.SortByKey | src/orchestrators/sromOrchestrator/positionSroms.ts:5-19 | the sort is a permutation of its input |
| Sorting.SortByKeySorted | src/orchestrators/sromOrchestrator/positionSroms.ts:5-19 | the sort puts keyed tiles first in key order and unkeyed ones after them |
| Sorting.SortKeepsUnkeyedOrder | src/orchestrators/sromOrchestrator/positionSroms.ts:36 | `Array.prototype.sort` is stable, so tiles without a slot come out of the sort in their input order |
| Sorting.SortKeepsKeyOrder | src/orchestrators/sromOrchestrator/positionSroms.ts:36 | tiles sharing one slot come out of the sort in their input order |
| Seqs.IndexOf | src/api/srom/toSROMTile.ts:20 | `indexOf` gives -1 exactly when the value is absent, and otherwise its first position |
| Seqs.Uniq | src/orchestrators/common/determinePalettesToEmit.ts:29 | `uniq` keeps every value of its input exactly once |
| Seqs.UniqOfDistinct | src/orchestrators/common/determinePalettesToEmit.ts:29 | `uniq` leaves a list without repeats as it is |
| Seqs.UniqKeepsOrder | src/api/palette/get24BitPalette.ts:24 | `uniq` keeps values in the order of their first occurrence |
| Seqs.JsSlice | src/generators/cromAnimations/cromAnimations.ts:139 | `slice` within bounds is the subsequence between them, and never leaves the array |
| Seqs.JsSplice | src/generators/eyecatcher/eyecatcher.ts:243-244 | `splice` within bounds keeps what is before the start, puts the new items there and keeps what is after the removed run |
| Seqs.Max | src/orchestrators/cromOrchestrator/positionCroms.ts:63 | `Math.max` of a non-empty list is one of its elements and at least every other |

## Left out

- Image and canvas plumbing (loading a PNG, `extractSubCanvas`, `extractCromTileSources`, `extractSromTileSources`, `getImageData`): a tile arrives with its pixels, and an image as its size and tile matrix.
- File I/O, the temporary-directory dump of `confirmTilesAre16ColorsOrLess.ts`, template rendering (ejs and Handlebars) and the `getCROMSourceFiles` parts of the generators beyond the data handed to the template: these only move bytes to and from the file system.
- The CLI, JSON validation (io-ts) and the debug scripts: they do no tile work.
- The orchestrators (`cromOrchestrator.ts`, both `sromOrchestrator.ts`, `indexCroms.ts`, `indexSroms.ts`): wiring between the modelled steps, importing modules that are not part of this model.
- The `ffBlank` generators: their substance is drawing a canvas; their effect, a preset slot 0xff, is one of the preset slots the allocators take as given.
- Generator polymorphism and the `set*Positions` callbacks of generators other than the eyecatcher: the allocators take tiles with some slots already set.
- Floating-point luma: the dark bit uses the exact integer form `(54213 R + 182376 G + 18411 B) div 1000`, not IEEE rounding.
- `markCromDupes` and `markSromDupes` are `markDupes` with a payload-equality comparator; lodash `isEqual` is sequence equality on the payloads.
- Object identity of palettes (the `Map` keyed by array identity, `indexOf` on the palette list): palette groups are an ordered sequence of (palette, tiles) pairs, and a palette is found by its group's position.
- `denormalizeDupes` shares the canvas with the original: pixels are values here, so sharing and copying cannot be told apart.
- `sliceOutFrame` shares cells by reference: a cell is an arena index, so a slice holds the same tiles by construction.
- TypeScript's `!` non-null assertions where the value is always present: the model requires the field, or reports the crash as an error where it can happen.
- CromAnimationSources.MasterGetsColumn: is stated for masters whose cell every later frame has; a master whose column a narrower last frame lacks gets one child fewer, which `CromAnimations.ApplyAllAt` covers only in its general form.
- CromAnimationInputs.Animation: the JSON fields of an animation are a map from names to strings; nested JSON values are not modelled.
- CromAnimationEmit.CreateAnimationDataForCodeEmit: `totalFrames` sums the corrected whole frame counts, so the slice of `finalTiles` always ends on a frame boundary; the source's fractional total (a 40-pixel animation without `tileWidth` gives 2.5), its truncated slice end and the resulting shift of every later input's slice are not modelled (see Findings).
- CromAnimationEmit.EmitInputs: `sliceIndex` advances by the corrected whole frame count, with the same consequence as the line above.
- CromAnimations.StepWidth: `tileWidth` is an integer; a fractional `tileWidth` in the JSON, which would change the `x += w` stepping of the frame cut and every slice derived from it, is not modelled.
- Eyecatcher.GetCromSources: blank tiles are recognised with the corrected `IsTileBlank` (every pixel transparent or opaque magenta, the `TileBlank` predicate), not the as-written test that refuses magenta (see Findings).
- Eyecatcher.GetSromSources: same corrected `IsTileBlank` as the line above.
- SromPositions.PositionSroms: requires `NoEmptyCells`; the source reads fields of a null cell and crashes, which the matrix type of the source inputs rules out, so no `Err` models that crash.
- CromPositionsLegacy.LegacyPositionCroms: requires `NoEmptyCells`, for the same null-cell crash as the line above.
- CromAnimationEmit.ToCodeEmitAnimations: splices by the corrected frame count; JavaScript's conversion of a fractional `deleteCount` is not modelled (see Findings).
- CromAnimations.SplitFrames: a width step of zero or less on a non-empty image is the error `NeverTerminates` where the source loops forever.
- Concurrency, timing and memory: the pipeline is sequential and none of it depends on them.

## Findings

| source | as written | input that shows it | evidently intended | confidence | as-written member | corrected member |
|---|---|---|---|---|---|---|
| src/cromOrchestrator/positionCroms.ts:57-80 | the older loop runs until all three lists are empty, but once the free tiles are gone and the cursor suits no remaining master no branch fires and it loops forever | an arena with one tile preset at slot 0 and one 3-child master with its three frames: the cursor starts at 1, there is no free tile, and 1 is not a multiple of 4 | every master placed on its alignment, as the newer allocator does by rounding the cursor up and flushing (here: master at 8, frames at 9 to 11) | not executed | CromPositionsLegacy.LegacyStuckExample | CromPositionsLegacy.NewerStuckExample |
| src/generators/eyecatcher/eyecatcher.ts:4-7 | `isTileBlank` compares pixels with `TRANSPARENT_VIA_MAGENTA_24BIT_COLOR`, which the colour module does not export, so the comparison colour is `undefined` and only fully transparent pixels count as blank | a discarded corner tile drawn entirely in opaque magenta (255, 0, 255, 255) is refused | a tile of transparent or opaque magenta pixels is blank, as the error messages say | not executed | Eyecatcher.AsWrittenRefusesMagenta | Eyecatcher.IsTileBlank |
| src/generators/cromAnimations/cromAnimations.ts:59-70 | `getNumberOfFrames` returns `width / 16 / tileWidth`, a fraction when the image width is not a whole number of frames, while the frame loop cuts one frame per started band | an animation 40 pixels wide with no `tileWidth`: three frames are cut, and the count is 2.5; `createAnimationDataForCodeEmit` then slices `finalTiles` to index 2 and moves `sliceIndex` by 2, so the next input's slice starts with this animation's third frame | the count of frames actually cut | not executed | CromAnimationEmit.NumberOfFramesFractional | CromAnimationEmit.NumberOfFramesMatches |
