/**
 * The code-emit data of the sprite-animation generator: `getNumberOfFrames`,
 * `toCodeEmitTiles`, `toCodeEmitAnimations` and
 * `createAnimationDataForCodeEmit`. The frames handed in are the ones
 * `getCROMSources` returned; every input takes the next run of them, as
 * many as its animations have frames, and every animation the next run of
 * that.
 */
module CromAnimationEmit {
  import opened Wrappers
  import opened Seqs
  import opened Tiles
  import opened CromAnimations
  import opened CromAnimationSources
  import opened CromAnimationInputs
  import opened Splices
  import Denormalize

  // ---------------------------------------------------------------------
  // getNumberOfFrames

  /** A JavaScript number: a finite value, or `Infinity` / `NaN`. */
  datatype JsNumber = Finite(v: real) | NonFinite

  /**
   * `getNumberOfFrames` as written: `autoAnimation` when it is truthy,
   * otherwise `width / 16 / (tileWidth ?? 1)` in real division, which is
   * not an integer when the image width is not a multiple of `16 * w`, and
   * not finite when the step is 0.
   */
  function NumberOfFramesAsWritten(anim: Animation): (n: JsNumber)
    ensures Truthy(anim.autoAnimation) ==> n == Finite(anim.autoAnimation.value as real)
    ensures !Truthy(anim.autoAnimation) ==>
              (n.Finite? <==> StepWidth(anim.tileWidth) != 0)
              && (n.Finite? ==> n.v * 16.0 * (StepWidth(anim.tileWidth) as real) == anim.width as real)
  {
    if Truthy(anim.autoAnimation) then Finite(anim.autoAnimation.value as real)
    else
      var w := StepWidth(anim.tileWidth);
      if w == 0 then NonFinite
      else
        var q := anim.width as real / 16.0 / w as real;
        assert q * 16.0 * (w as real) == anim.width as real;
        Finite(q)
  }

  /**
   * The number of frames `getCROMSources` cut for the animation: what
   * `getNumberOfFrames` is meant to return. An auto animation has
   * `autoAnimation` frames; another has one per started band of `16 * w`
   * pixels. A step below 1 never gets this far, as the frame loop does
   * not end.
   */
  function NumberOfFrames(anim: Animation): int {
    if Truthy(anim.autoAnimation) then anim.autoAnimation.value
    else
      var w := StepWidth(anim.tileWidth);
      if w >= 1 then FrameCount(anim.width, w) else 0
  }

  /** The corrected count is the number of frames the animation was cut into. */
  lemma {:induction false} NumberOfFramesMatches(anim: Animation)
    requires AnimationFrames(anim).Ok?
    ensures NumberOfFrames(anim) == |AnimationFrames(anim).value|
  {
    var w := StepWidth(anim.tileWidth);
    if anim.width == 0 && w >= 1 {
      assert FrameCount(0, w) == 0;
    }
  }

  /**
   * The two counts agree for an auto animation, and for another exactly
   * when its frames fill the image: the width is that many whole bands of
   * `16 * w` pixels.
   */
  lemma {:induction false} NumberOfFramesAgree(anim: Animation)
    requires Truthy(anim.autoAnimation) || StepWidth(anim.tileWidth) >= 1
    ensures Truthy(anim.autoAnimation) ==> NumberOfFramesAsWritten(anim) == Finite(NumberOfFrames(anim) as real)
    ensures !Truthy(anim.autoAnimation) ==>
              (NumberOfFramesAsWritten(anim) == Finite(NumberOfFrames(anim) as real)
               <==> anim.width == 16 * StepWidth(anim.tileWidth) * NumberOfFrames(anim))
  {
    if !Truthy(anim.autoAnimation) {
      var w := StepWidth(anim.tileWidth);
      var n := NumberOfFrames(anim);
      var b := 16 * w;
      var q := NumberOfFramesAsWritten(anim).v;
      assert q * (b as real) == anim.width as real;
      assert (n * b) as real == (n as real) * (b as real);
      if q == n as real {
        assert (n * b) as real == anim.width as real;
      }
      if anim.width == b * n {
        RealCancel(q, n as real, b as real);
      }
      assert b * n == 16 * w * n;
    }
  }

  lemma {:induction false} RealCancel(x: real, y: real, b: real)
    requires b > 0.0 && x * b == y * b
    ensures x == y
  {
  }

  /**
   * An image 40 pixels wide, one tile row of three cells and no
   * `tileWidth`: the frame loop runs for `x` = 0, 1 and 2 (all below
   * 2.5) and cuts three frames, while `getNumberOfFrames` returns 2.5.
   */
  lemma {:induction false} NumberOfFramesFractional()
    ensures var anim := Animation("walk", "walk.png", None, None, map[], 40, [[Some(0), Some(1), Some(2)]]);
            AnimationFrames(anim).Ok? && |AnimationFrames(anim).value| == 3
            && NumberOfFramesAsWritten(anim) == Finite(2.5)
            && NumberOfFrames(anim) == 3
  {
    var anim := Animation("walk", "walk.png", None, None, map[], 40, [[Some(0), Some(1), Some(2)]]);
    assert FrameCount(-8, 1) == 0;
    assert FrameCount(8, 1) == 1;
    assert FrameCount(24, 1) == 2;
    assert FrameCount(40, 1) == 3;
    NumberOfFramesMatches(anim);
  }

  // ---------------------------------------------------------------------
  // toCodeEmitTiles

  /** The two fields code emit reads from a tile. */
  datatype CodeEmitTile = CodeEmitTile(index: Option<int>, paletteIndex: Option<int>)

  /** One animation as the templates see it. */
  datatype CodeEmitAnimation = CodeEmitAnimation(
    name: string,
    imageFile: string,
    autoAnimation: Option<int>,
    frames: seq<seq<seq<CodeEmitTile>>>,
    custom: map<string, string>)

  /** One input as the templates see it. */
  datatype CodeEmitAnimationGroup = CodeEmitAnimationGroup(name: string, animations: seq<CodeEmitAnimation>)

  /** Every frame's cells hold arena tiles. */
  predicate FramesFilled(frames: seq<Matrix>, size: nat) {
    forall m :: m in frames ==> Filled(m, size)
  }

  /** `{ index: tile.cromIndex!, paletteIndex: tile.paletteIndex! }`: the `!` checks nothing, so a missing index stays missing. */
  function EmitTile(t: Tile): CodeEmitTile {
    CodeEmitTile(t.cromIndex, t.paletteIndex)
  }

  /** `toCodeEmitTiles`: the matrix with every cell's tile replaced by its two fields. */
  function ToCodeEmitTiles(arena: seq<Tile>, frame: Matrix): seq<seq<CodeEmitTile>>
    requires Filled(frame, |arena|)
  {
    seq(|frame|, y requires 0 <= y < |frame| =>
      seq(|frame[y]|, x requires 0 <= x < |frame[y]| => EmitTile(arena[frame[y][x].value])))
  }

  /**
   * The code-emit matrix has the frame's shape, and each cell the slot and
   * palette index of the tile at that cell.
   */
  lemma {:induction false} ToCodeEmitTilesAt(arena: seq<Tile>, frame: Matrix)
    requires Filled(frame, |arena|)
    ensures var r := ToCodeEmitTiles(arena, frame);
            |r| == |frame|
            && (forall y :: 0 <= y < |frame| ==> |r[y]| == |frame[y]|)
            && forall y, x :: 0 <= y < |frame| && 0 <= x < |frame[y]| ==>
                 r[y][x].index == arena[frame[y][x].value].cromIndex
                 && r[y][x].paletteIndex == arena[frame[y][x].value].paletteIndex
  {
  }

  /** `frames.map(toCodeEmitTiles)`. */
  function EmitFrames(arena: seq<Tile>, frames: seq<Matrix>): (r: seq<seq<seq<CodeEmitTile>>>)
    requires FramesFilled(frames, |arena|)
    ensures |r| == |frames|
  {
    seq(|frames|, f requires 0 <= f < |frames| => ToCodeEmitTiles(arena, frames[f]))
  }

  /**
   * After `denormalizeDupes`, a duplicate shows the `cromIndex` of the
   * tile it duplicates: a cell holding a tile that `markDupes` marked
   * emits its target's slot.
   */
  lemma {:induction false} EmitsTargetIndex(a: seq<Tile>, images: seq<Matrix>, frame: Matrix, y: nat, x: nat)
    requires Denormalize.LinksIn(a)
    requires forall k :: 0 <= k < |a| && a[k].duplicateOf.Some? ==> a[a[k].duplicateOf.value].duplicateOf.None?
    requires Filled(frame, |a|) && y < |frame| && x < |frame[y]|
    requires frame[y][x].value in Visits(images) && a[frame[y][x].value].duplicateOf.Some?
    ensures var d := Denormalize.Denormalized(a, Visits(images), Denormalize.CromIndexProp);
            ToCodeEmitTiles(d, frame)[y][x].index == a[a[frame[y][x].value].duplicateOf.value].cromIndex
  {
    var d := Denormalize.Denormalized(a, Visits(images), Denormalize.CromIndexProp);
    ToCodeEmitTilesAt(d, frame);
    Denormalize.OneHop(a, Visits(images), Denormalize.CromIndexProp, frame[y][x].value);
  }

  // ---------------------------------------------------------------------
  // toCodeEmitAnimations

  /** The frame counts of `anims`, one per animation. */
  function Counts(anims: seq<Animation>): seq<int> {
    seq(|anims|, i requires 0 <= i < |anims| => NumberOfFrames(anims[i]))
  }

  /** Runs spliced off filled frames are filled. */
  lemma {:induction false} ChunkFilled(tiles: seq<Matrix>, counts: seq<int>, i: nat, size: nat)
    requires FramesFilled(tiles, size) && i < |counts|
    ensures FramesFilled(Chunk(tiles, counts, i), size)
  {
    forall m | m in Chunk(tiles, counts, i) ensures Filled(m, size) {
      ChunkIn(tiles, counts, i, m);
    }
  }

  /** The record `toCodeEmitAnimations` builds for one animation from its frames. */
  function EmitAnimation(arena: seq<Tile>, anim: Animation, frames: seq<Matrix>): CodeEmitAnimation
    requires FramesFilled(frames, |arena|)
  {
    CodeEmitAnimation(anim.name, anim.imageFile, anim.autoAnimation, EmitFrames(arena, frames), CustomProps(anim.fields))
  }

  /** Animation `i`'s record, from run `i` spliced off `tiles`. */
  function EmitAnimationAt(arena: seq<Tile>, anims: seq<Animation>, tiles: seq<Matrix>, i: nat): CodeEmitAnimation
    requires FramesFilled(tiles, |arena|) && i < |anims|
  {
    ChunkFilled(tiles, Counts(anims), i, |arena|);
    EmitAnimation(arena, anims[i], Chunk(tiles, Counts(anims), i))
  }

  /** What `toCodeEmitAnimations` returns: animation `i` gets run `i` spliced off `tiles`. */
  function EmitAnimations(arena: seq<Tile>, anims: seq<Animation>, tiles: seq<Matrix>): (r: seq<CodeEmitAnimation>)
    requires FramesFilled(tiles, |arena|)
    ensures |r| == |anims|
  {
    seq(|anims|, i requires 0 <= i < |anims| => EmitAnimationAt(arena, anims, tiles, i))
  }

  /**
   * `toCodeEmitAnimations`: the `map` over the animations, each pass
   * splicing its frame count off the front of `inputTiles`.
   */
  method ToCodeEmitAnimations(arena: seq<Tile>, animations: seq<Animation>, inputTiles: seq<Matrix>)
    returns (r: seq<CodeEmitAnimation>)
    requires FramesFilled(inputTiles, |arena|)
    ensures r == EmitAnimations(arena, animations, inputTiles)
  {
    ghost var counts := Counts(animations);
    ghost var expected := EmitAnimations(arena, animations, inputTiles);
    var rest := inputTiles;
    r := [];
    for i := 0 to |animations|
      invariant rest == inputTiles[Offset(inputTiles, counts, i)..]
      invariant r == expected[..i]
    {
      var numFrames := NumberOfFrames(animations[i]);
      var k := SpliceCount(numFrames, |rest|);
      var frames := rest[..k];
      SpliceStep(arena, animations, inputTiles, i, rest);
      var animation := EmitAnimation(arena, animations[i], frames);
      PrefixNext(expected, i);
      rest := rest[k..];
      r := r + [animation];
    }
    assert expected[..|animations|] == expected;
  }

  /** One pass of the `map`: what is left starts with animation `i`'s run, and the rest is the later runs. */
  lemma {:induction false} SpliceStep(arena: seq<Tile>, animations: seq<Animation>, inputTiles: seq<Matrix>, i: nat, rest: seq<Matrix>)
    requires FramesFilled(inputTiles, |arena|) && i < |animations|
    requires rest == inputTiles[Offset(inputTiles, Counts(animations), i)..]
    ensures var k := SpliceCount(NumberOfFrames(animations[i]), |rest|);
            && FramesFilled(rest[..k], |arena|)
            && EmitAnimation(arena, animations[i], rest[..k]) == EmitAnimations(arena, animations, inputTiles)[i]
            && rest[k..] == inputTiles[Offset(inputTiles, Counts(animations), i + 1)..]
  {
    var counts := Counts(animations);
    ChunksNext(inputTiles, counts, i);
    ChunkFilled(inputTiles, counts, i, |arena|);
    assert EmitAnimations(arena, animations, inputTiles)[i] == EmitAnimationAt(arena, animations, inputTiles, i);
  }

  /**
   * Frames cut animation by animation, each as many as its count, are
   * handed back animation by animation: each animation gets exactly its
   * own frames, whatever follows them.
   */
  lemma {:induction false} EmitAnimationsOwn(arena: seq<Tile>, anims: seq<Animation>, parts: seq<seq<Matrix>>, rest: seq<Matrix>)
    requires |parts| == |anims|
    requires forall i :: 0 <= i < |anims| ==> |parts[i]| == NumberOfFrames(anims[i])
    requires FramesFilled(Flatten(parts) + rest, |arena|)
    ensures forall i :: 0 <= i < |anims| ==> FramesFilled(parts[i], |arena|)
    ensures forall i :: 0 <= i < |anims| ==>
              EmitAnimations(arena, anims, Flatten(parts) + rest)[i] == EmitAnimation(arena, anims[i], parts[i])
  {
    var tiles := Flatten(parts) + rest;
    ChunksOwn(tiles, parts, Counts(anims));
    forall i | 0 <= i < |anims|
      ensures FramesFilled(parts[i], |arena|)
      ensures EmitAnimations(arena, anims, tiles)[i] == EmitAnimation(arena, anims[i], parts[i])
    {
      assert Chunks(tiles, Counts(anims))[i] == parts[i];
      ChunkFilled(tiles, Counts(anims), i, |arena|);
    }
  }

  // ---------------------------------------------------------------------
  // createAnimationDataForCodeEmit

  /** The frame counts of `anims`, added up from the left: the `reduce` in `createAnimationDataForCodeEmit`. */
  function TotalFrames(anims: seq<Animation>): int {
    if anims == [] then 0 else TotalFrames(anims[..|anims| - 1]) + NumberOfFrames(anims[|anims| - 1])
  }

  /** Every input's frame total. */
  function Totals(inputs: seq<AnimationInput>): seq<int> {
    seq(|inputs|, i requires 0 <= i < |inputs| => TotalFrames(inputs[i].animations))
  }

  /** Slices of filled frames are filled. */
  lemma {:induction false} SliceFilled(tiles: seq<Matrix>, totals: seq<int>, i: nat, size: nat)
    requires FramesFilled(tiles, size) && i < |totals|
    ensures FramesFilled(Slice(tiles, totals, i), size)
  {
    forall m | m in Slice(tiles, totals, i) ensures Filled(m, size) {
      SliceIn(tiles, totals, i, m);
    }
  }

  /** Input `i`'s group, from its slice of `tiles`. */
  function EmitGroupAt(arena: seq<Tile>, inputs: seq<AnimationInput>, tiles: seq<Matrix>, i: nat): CodeEmitAnimationGroup
    requires FramesFilled(tiles, |arena|) && i < |inputs|
  {
    SliceFilled(tiles, Totals(inputs), i, |arena|);
    CodeEmitAnimationGroup(inputs[i].name, EmitAnimations(arena, inputs[i].animations, Slice(tiles, Totals(inputs), i)))
  }

  /**
   * What the `map` over the inputs returns: input `i` gets its slice of
   * `tiles` and hands it to `toCodeEmitAnimations`.
   */
  function EmitGroups(arena: seq<Tile>, inputs: seq<AnimationInput>, tiles: seq<Matrix>): (r: seq<CodeEmitAnimationGroup>)
    requires FramesFilled(tiles, |arena|)
    ensures |r| == |inputs|
  {
    seq(|inputs|, i requires 0 <= i < |inputs| => EmitGroupAt(arena, inputs, tiles, i))
  }

  /**
   * `createAnimationDataForCodeEmit`: `denormalizeDupes` on the frames
   * (into a clone of the arena), then the `map` over the inputs with the
   * running `sliceIndex`. The arena itself is left as it was.
   */
  method CreateAnimationDataForCodeEmit(arena: array<Tile>, inputs: seq<AnimationInput>, tiles: seq<Matrix>)
    returns (groups: seq<CodeEmitAnimationGroup>)
    requires FramesFilled(tiles, arena.Length) && Denormalize.LinksIn(arena[..])
    ensures groups == EmitGroups(Denormalize.Denormalized(arena[..], Visits(tiles), Denormalize.CromIndexProp), inputs, tiles)
  {
    CellsInFilled(tiles, arena.Length);
    var finalTiles := Denormalize.DenormalizeDupes(tiles, arena, Denormalize.CromIndexProp);
    groups := EmitInputs(finalTiles[..], inputs, tiles);
  }

  /** The `map` over the inputs, with `sliceIndex` moving past each input's slice. */
  method EmitInputs(finalTiles: seq<Tile>, inputs: seq<AnimationInput>, tiles: seq<Matrix>)
    returns (groups: seq<CodeEmitAnimationGroup>)
    requires FramesFilled(tiles, |finalTiles|)
    ensures groups == EmitGroups(finalTiles, inputs, tiles)
  {
    ghost var totals := Totals(inputs);
    ghost var expected := EmitGroups(finalTiles, inputs, tiles);
    var sliceIndex: nat := 0;
    groups := [];
    for i := 0 to |inputs|
      invariant sliceIndex == SliceStart(|tiles|, totals, i)
      invariant groups == expected[..i]
    {
      var totalFrames := TotalFrames(inputs[i].animations);
      var animationSlice := JsSlice(tiles, sliceIndex, sliceIndex + totalFrames);
      SliceStep(finalTiles, inputs, tiles, i, sliceIndex);
      var animations := ToCodeEmitAnimations(finalTiles, inputs[i].animations, animationSlice);
      var group := CodeEmitAnimationGroup(inputs[i].name, animations);
      PrefixNext(expected, i);
      sliceIndex := sliceIndex + |animationSlice|;
      groups := groups + [group];
    }
    assert expected[..|inputs|] == expected;
  }

  /** One pass of the `map` over the inputs: input `i`'s slice makes its group, and the index moves past it. */
  lemma {:induction false} SliceStep(arena: seq<Tile>, inputs: seq<AnimationInput>, tiles: seq<Matrix>, i: nat, p: nat)
    requires FramesFilled(tiles, |arena|) && i < |inputs| && p == SliceStart(|tiles|, Totals(inputs), i)
    ensures var slice := JsSlice(tiles, p, p + TotalFrames(inputs[i].animations));
            && FramesFilled(slice, |arena|)
            && CodeEmitAnimationGroup(inputs[i].name, EmitAnimations(arena, inputs[i].animations, slice))
               == EmitGroups(arena, inputs, tiles)[i]
            && SliceStart(|tiles|, Totals(inputs), i + 1) == p + |slice|
  {
    var totals := Totals(inputs);
    SliceNext(tiles, totals, i);
    SliceFilled(tiles, totals, i, |arena|);
    assert EmitGroups(arena, inputs, tiles)[i] == EmitGroupAt(arena, inputs, tiles, i);
  }

  /** Filled frames have their cells in the arena. */
  lemma {:induction false} CellsInFilled(tiles: seq<Matrix>, size: nat)
    requires FramesFilled(tiles, size)
    ensures CellsIn(tiles, size)
  {
    forall i, r, c | 0 <= i < |tiles| && 0 <= r < |tiles[i]| && 0 <= c < |tiles[i][r]| && tiles[i][r][c].Some?
      ensures tiles[i][r][c].value < size
    {
      assert tiles[i] in tiles && Filled(tiles[i], size);
    }
  }

  /**
   * Frames laid out input by input at the front of `tiles`, each input's
   * run as long as its frame total: every input gets exactly its own run.
   */
  lemma {:induction false} EmitGroupsOwn(arena: seq<Tile>, inputs: seq<AnimationInput>, tiles: seq<Matrix>,
                                         runs: seq<seq<Matrix>>)
    requires FramesFilled(tiles, |arena|) && |runs| == |inputs|
    requires forall k :: 0 <= k < |inputs| ==> |runs[k]| == TotalFrames(inputs[k].animations)
    requires Flatten(runs) <= tiles
    ensures forall j :: 0 <= j < |inputs| ==> FramesFilled(runs[j], |arena|)
    ensures forall j :: 0 <= j < |inputs| ==>
              EmitGroups(arena, inputs, tiles)[j]
              == CodeEmitAnimationGroup(inputs[j].name, EmitAnimations(arena, inputs[j].animations, runs[j]))
  {
    SlicesOwn(tiles, runs, Totals(inputs));
    forall j | 0 <= j < |inputs|
      ensures FramesFilled(runs[j], |arena|)
      ensures EmitGroups(arena, inputs, tiles)[j]
              == CodeEmitAnimationGroup(inputs[j].name, EmitAnimations(arena, inputs[j].animations, runs[j]))
    {
      assert Slices(tiles, Totals(inputs))[j] == runs[j];
      SliceFilled(tiles, Totals(inputs), j, |arena|);
    }
  }
}
