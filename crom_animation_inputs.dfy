/**
 * The animation and input records of the sprite-animation generator, and
 * `getCROMSources` over them: every animation is cut into frames, an auto
 * animation's frame count is checked and its frames linked, and the frames
 * of every animation of every input are concatenated in order.
 *
 * An animation carries, besides its JSON fields, the pixel width of its
 * image and the tile matrix extracted from that image; loading the image
 * is not modelled.
 */
module CromAnimationInputs {
  import opened Wrappers
  import opened Seqs
  import opened Tiles
  import opened CromAnimations
  import opened CromAnimationSources

  /**
   * One entry of an input's `animations`. `fields` is the whole JSON
   * object, every key with its value; `name`, `imageFile`, `tileWidth`
   * and `autoAnimation` are its typed fields.
   */
  datatype Animation = Animation(
    name: string,
    imageFile: string,
    tileWidth: Option<int>,
    autoAnimation: Option<int>,
    fields: map<string, string>,
    width: nat,
    tiles: Matrix)

  /** One entry of the generator's `inputs`. */
  datatype AnimationInput = AnimationInput(name: string, animations: seq<Animation>)

  /** `if (animation.autoAnimation)`: a missing field and 0 are both false. */
  predicate Truthy(v: Option<int>) {
    v.Some? && v.value != 0
  }

  // ---------------------------------------------------------------------
  // getCustomPropObject

  /** The keys the destructuring in `getCustomPropObject` takes out. */
  predicate Reserved(k: string) {
    k == "name" || k == "imageFile" || k == "tileWidth" || k == "autoAnimation"
  }

  /** `getCustomPropObject`: the rest object of the destructuring. */
  function CustomProps(fields: map<string, string>): (custom: map<string, string>)
    ensures forall k :: k in custom <==> k in fields && !Reserved(k)
    ensures forall k :: k in custom ==> custom[k] == fields[k]
  {
    map k | k in fields && !Reserved(k) :: fields[k]
  }

  /** Taking the rest object twice takes nothing more. */
  lemma {:induction false} CustomPropsIdempotent(fields: map<string, string>)
    ensures CustomProps(CustomProps(fields)) == CustomProps(fields)
  {
    var once := CustomProps(fields);
    var twice := CustomProps(once);
    assert forall k :: k in twice <==> k in once;
  }

  /** A map with none of the four keys is kept whole. */
  lemma {:induction false} CustomPropsKeepsOthers(fields: map<string, string>)
    requires forall k :: k in fields ==> !Reserved(k)
    ensures CustomProps(fields) == fields
  {
    var custom := CustomProps(fields);
    assert forall k :: k in custom <==> k in fields;
  }

  // ---------------------------------------------------------------------
  // One animation

  /**
   * What `getCROMSources` makes of one animation: the frames of the frame
   * loop, or the error that loop or the auto-animation count check raises.
   */
  function AnimationFrames(anim: Animation): (r: Result<seq<Matrix>>)
    ensures r.Ok? && Truthy(anim.autoAnimation) ==> |r.value| == anim.autoAnimation.value
  {
    match SplitResult(anim.tiles, anim.width, anim.tileWidth)
    case Err(e) => Err(e)
    case Ok(frames) =>
      if Truthy(anim.autoAnimation) && |frames| != anim.autoAnimation.value then Err(FrameCountMismatch)
      else Ok(frames)
  }

  /**
   * An auto animation that passed the count check has at least one frame,
   * and its later frames fit its first: `applyChildTiles` finds a master
   * tile at every cell of every child frame.
   */
  lemma {:induction false} AutoFramesFit(anim: Animation, size: nat)
    requires Filled(anim.tiles, size) && AnimationFrames(anim).Ok? && Truthy(anim.autoAnimation)
    ensures |AnimationFrames(anim).value| >= 1
    ensures var frames := AnimationFrames(anim).value;
            FramesFit(frames[0], frames[1..], |frames| - 1, size)
  {
    var frames := AnimationFrames(anim).value;
    var w := StepWidth(anim.tileWidth);
    assert anim.width > 0 && w >= 1 && frames == FramesOf(anim.tiles, FrameCount(anim.width, w), w);
    FramesSliced(anim.tiles, FrameCount(anim.width, w), w);
    SlicedFramesFit(frames, anim.tiles, w, size);
  }

  /** The links `applyChildTiles` makes for one animation: none but for an auto animation that passed the check. */
  function AnimationLinks(anim: Animation, size: nat): seq<Link>
    requires Filled(anim.tiles, size)
  {
    var r := AnimationFrames(anim);
    if r.Ok? && Truthy(anim.autoAnimation) then
      AutoFramesFit(anim, size);
      ChildLinks(r.value[0], r.value[1..], |r.value| - 1, size)
    else []
  }

  /**
   * The frames of an animation that passed are, with a step width of at
   * least one, its image's slices from column 0, as many as the frame
   * loop makes.
   */
  lemma {:induction false} AnimationFramesSliced(anim: Animation)
    requires AnimationFrames(anim).Ok? && anim.width > 0
    ensures var w := StepWidth(anim.tileWidth);
            var frames := AnimationFrames(anim).value;
            w >= 1 && |frames| == FrameCount(anim.width, w) && Sliced(frames, anim.tiles, w)
  {
    var w := StepWidth(anim.tileWidth);
    assert w >= 1 && AnimationFrames(anim).value == FramesOf(anim.tiles, FrameCount(anim.width, w), w);
    FramesSliced(anim.tiles, FrameCount(anim.width, w), w);
  }

  /** An auto animation fails the check exactly when the frame loop does not make `autoAnimation` frames. */
  lemma {:induction false} AutoAnimationChecked(anim: Animation)
    requires Truthy(anim.autoAnimation) && SplitResult(anim.tiles, anim.width, anim.tileWidth).Ok?
    ensures AnimationFrames(anim).Err?
            <==> |SplitResult(anim.tiles, anim.width, anim.tileWidth).value| != anim.autoAnimation.value
  {
  }

  /** An animation that is not an auto animation keeps every frame the loop cuts and links nothing. */
  lemma {:induction false} PlainAnimationKept(anim: Animation, size: nat)
    requires !Truthy(anim.autoAnimation) && Filled(anim.tiles, size)
    ensures AnimationFrames(anim) == SplitResult(anim.tiles, anim.width, anim.tileWidth)
    ensures AnimationLinks(anim, size) == []
  {
  }

  /**
   * The body of the `reduce` in `getCROMSources`: the frame loop, the
   * count check and `applyChildTiles` on the arena.
   */
  method AnimationSources(arena: array<Tile>, anim: Animation) returns (r: Result<seq<Matrix>>)
    requires Filled(anim.tiles, arena.Length)
    modifies arena
    ensures r == AnimationFrames(anim)
    ensures arena[..] == ApplyAll(old(arena[..]), AnimationLinks(anim, arena.Length))
  {
    var frames := SplitFrames(anim.tiles, anim.width, anim.tileWidth);
    if frames.Err? {
      assert ApplyAll(arena[..], []) == arena[..];
      return Err(frames.error);
    }
    if Truthy(anim.autoAnimation) {
      if |frames.value| != anim.autoAnimation.value {
        assert ApplyAll(arena[..], []) == arena[..];
        return Err(FrameCountMismatch);
      }
      AutoFramesFit(anim, arena.Length);
      ApplyChildTiles(arena, frames.value[0], frames.value[1..]);
    } else {
      assert ApplyAll(arena[..], []) == arena[..];
    }
    return Ok(frames.value);
  }

  // ---------------------------------------------------------------------
  // Every animation of every input

  /** Every animation's matrix holds arena tiles. */
  predicate AllFilled(anims: seq<Animation>, size: nat) {
    forall i :: 0 <= i < |anims| ==> Filled(anims[i].tiles, size)
  }

  /** Both parts of a filled run are filled. */
  lemma {:induction false} AllFilledSplit(xs: seq<Animation>, ys: seq<Animation>, size: nat)
    requires AllFilled(xs + ys, size)
    ensures AllFilled(xs, size) && AllFilled(ys, size)
  {
    var s := xs + ys;
    forall i | 0 <= i < |xs| ensures Filled(xs[i].tiles, size) { assert s[i] == xs[i]; }
    forall i | 0 <= i < |ys| ensures Filled(ys[i].tiles, size) { assert s[|xs| + i] == ys[i]; }
  }

  /** The animations of all inputs, input by input: the order `flat(1)` keeps. */
  function AnimationsOf(inputs: seq<AnimationInput>): seq<Animation> {
    if inputs == [] then [] else AnimationsOf(inputs[..|inputs| - 1]) + inputs[|inputs| - 1].animations
  }

  /** The animations of the inputs before `i`, then those from `i` on, are all the animations. */
  lemma {:induction false} AnimationsOfSplit(inputs: seq<AnimationInput>, i: nat)
    requires i <= |inputs|
    ensures AnimationsOf(inputs) == AnimationsOf(inputs[..i]) + AnimationsOf(inputs[i..])
  {
    if i == |inputs| {
      assert inputs[..i] == inputs && inputs[i..] == [];
    } else {
      var init := inputs[..|inputs| - 1];
      var last := inputs[|inputs| - 1];
      AnimationsOfSplit(init, i);
      assert init[..i] == inputs[..i];
      var tail := inputs[i..];
      assert tail[..|tail| - 1] == init[i..] && tail[|tail| - 1] == last;
      assert AnimationsOf(tail) == AnimationsOf(init[i..]) + last.animations;
      assert AnimationsOf(init[..i]) + AnimationsOf(init[i..]) + last.animations
          == AnimationsOf(init[..i]) + (AnimationsOf(init[i..]) + last.animations);
    }
  }

  /** The next input's animations follow those of the inputs before it. */
  lemma {:induction false} AnimationsOfSnoc(inputs: seq<AnimationInput>, i: nat)
    requires i < |inputs|
    ensures AnimationsOf(inputs[..i + 1]) == AnimationsOf(inputs[..i]) + inputs[i].animations
  {
    assert inputs[..i + 1][..i] == inputs[..i];
  }

  /** Frames, then more frames; the first error wins. */
  function Then(r: Result<seq<Matrix>>, s: Result<seq<Matrix>>): (t: Result<seq<Matrix>>)
    ensures t.Ok? <==> r.Ok? && s.Ok?
    ensures t.Ok? ==> t.value == r.value + s.value
    ensures r.Err? ==> t == r
    ensures r.Ok? && s.Err? ==> t == s
  {
    match r
    case Err(e) => Err(e)
    case Ok(a) =>
      match s
      case Err(e) => Err(e)
      case Ok(b) => Ok(a + b)
  }

  /** The frames of a result that has them. */
  function Value(r: Result<seq<Matrix>>): seq<Matrix> {
    if r.Ok? then r.value else []
  }

  /** A run of results joined in order, the first error winning: what `reduce` with `concat` returns. */
  function Chain(rs: seq<Result<seq<Matrix>>>): Result<seq<Matrix>> {
    if rs == [] then Ok([]) else Then(Chain(rs[..|rs| - 1]), rs[|rs| - 1])
  }

  /** The links `ls[i]` of every result before the first error, and of that one, in order. */
  function ChainLinks(rs: seq<Result<seq<Matrix>>>, ls: seq<seq<Link>>): seq<Link>
    requires |ls| == |rs|
  {
    if rs == [] then []
    else if Chain(rs[..|rs| - 1]).Err? then ChainLinks(rs[..|rs| - 1], ls[..|ls| - 1])
    else ChainLinks(rs[..|rs| - 1], ls[..|ls| - 1]) + ls[|ls| - 1]
  }

  /** A chain succeeds exactly when every result does, and then joins their values in order. */
  lemma {:induction false} ChainAll(rs: seq<Result<seq<Matrix>>>)
    ensures Chain(rs).Ok? <==> forall i :: 0 <= i < |rs| ==> rs[i].Ok?
    ensures Chain(rs).Ok? ==> Chain(rs).value == Flatten(seq(|rs|, i requires 0 <= i < |rs| => Value(rs[i])))
  {
    if rs != [] {
      var init := rs[..|rs| - 1];
      ChainAll(init);
      assert forall i :: 0 <= i < |init| ==> init[i] == rs[i];
      if Chain(rs).Ok? {
        var parts := seq(|rs|, i requires 0 <= i < |rs| => Value(rs[i]));
        var initParts := seq(|init|, i requires 0 <= i < |init| => Value(init[i]));
        assert parts == initParts + [rs[|rs| - 1].value];
        FlattenAppend(initParts, rs[|rs| - 1].value);
      } else if Chain(init).Ok? {
        assert rs[|rs| - 1].Err?;
      } else {
        var i :| 0 <= i < |init| && init[i].Err?;
        assert rs[i] == init[i];
      }
    }
  }

  /** Two chains one after the other: the values of the second follow those of the first; the first error wins. */
  lemma {:induction false} ChainAppend(rs: seq<Result<seq<Matrix>>>, ts: seq<Result<seq<Matrix>>>)
    ensures Chain(rs + ts) == Then(Chain(rs), Chain(ts))
    decreases |ts|
  {
    if ts == [] {
      assert rs + ts == rs;
      if Chain(rs).Ok? {
        assert Chain(rs).value + [] == Chain(rs).value;
      }
    } else {
      var init := ts[..|ts| - 1];
      ChainAppend(rs, init);
      assert (rs + ts)[..|rs + ts| - 1] == rs + init;
      if Chain(rs).Ok? && Chain(init).Ok? && ts[|ts| - 1].Ok? {
        var a, b, c := Chain(rs).value, Chain(init).value, ts[|ts| - 1].value;
        assert a + b + c == a + (b + c);
      }
    }
  }

  /** The links of two chains: those of the first, then, unless the first fails, those of the second. */
  lemma {:induction false} ChainLinksAppend(rs: seq<Result<seq<Matrix>>>, ls: seq<seq<Link>>,
                                            ts: seq<Result<seq<Matrix>>>, ms: seq<seq<Link>>)
    requires |ls| == |rs| && |ms| == |ts|
    ensures ChainLinks(rs + ts, ls + ms)
            == if Chain(rs).Err? then ChainLinks(rs, ls) else ChainLinks(rs, ls) + ChainLinks(ts, ms)
    decreases |ts|
  {
    if ts == [] {
      assert rs + ts == rs && ls + ms == ls;
      assert ChainLinks(rs, ls) + [] == ChainLinks(rs, ls);
    } else {
      var init, minit := ts[..|ts| - 1], ms[..|ms| - 1];
      ChainLinksAppend(rs, ls, init, minit);
      ChainAppend(rs, init);
      assert (rs + ts)[..|rs + ts| - 1] == rs + init;
      assert (ls + ms)[..|ls + ms| - 1] == ls + minit;
      if Chain(rs).Ok? && Chain(init).Ok? {
        var a, b, c := ChainLinks(rs, ls), ChainLinks(init, minit), ms[|ms| - 1];
        assert a + b + c == a + (b + c);
      }
    }
  }

  /** What each animation makes of its frames. */
  function FramesEach(anims: seq<Animation>): (rs: seq<Result<seq<Matrix>>>)
    ensures |rs| == |anims| && forall i :: 0 <= i < |anims| ==> rs[i] == AnimationFrames(anims[i])
  {
    seq(|anims|, i requires 0 <= i < |anims| => AnimationFrames(anims[i]))
  }

  /** The links each animation would make. */
  function LinksEach(anims: seq<Animation>, size: nat): (ls: seq<seq<Link>>)
    requires AllFilled(anims, size)
    ensures |ls| == |anims| && forall i :: 0 <= i < |anims| ==> ls[i] == AnimationLinks(anims[i], size)
  {
    seq(|anims|, i requires 0 <= i < |anims| => AnimationLinks(anims[i], size))
  }

  /** The `reduce` over `anims`: their frames concatenated, or the first error one of them raises. */
  function SourcesOf(anims: seq<Animation>): Result<seq<Matrix>> {
    Chain(FramesEach(anims))
  }

  /** The links made for `anims` in order, up to the first animation that throws. */
  function LinksOf(anims: seq<Animation>, size: nat): seq<Link>
    requires AllFilled(anims, size)
  {
    ChainLinks(FramesEach(anims), LinksEach(anims, size))
  }

  lemma {:induction false} EachAppend(xs: seq<Animation>, ys: seq<Animation>, size: nat)
    ensures FramesEach(xs + ys) == FramesEach(xs) + FramesEach(ys)
    ensures AllFilled(xs, size) && AllFilled(ys, size) ==>
              AllFilled(xs + ys, size) && LinksEach(xs + ys, size) == LinksEach(xs, size) + LinksEach(ys, size)
  {
    var s := xs + ys;
    var f, g := FramesEach(s), FramesEach(xs) + FramesEach(ys);
    forall i | 0 <= i < |s| ensures f[i] == g[i] {
      if i < |xs| {
        assert s[i] == xs[i];
      } else {
        assert s[i] == ys[i - |xs|];
      }
    }
    if AllFilled(xs, size) && AllFilled(ys, size) {
      forall i | 0 <= i < |s| ensures Filled(s[i].tiles, size) {
        if i < |xs| {
          assert s[i] == xs[i];
        } else {
          assert s[i] == ys[i - |xs|];
        }
      }
      var l, m := LinksEach(s, size), LinksEach(xs, size) + LinksEach(ys, size);
      forall i | 0 <= i < |s| ensures l[i] == m[i] {
        if i < |xs| {
          assert s[i] == xs[i];
        } else {
          assert s[i] == ys[i - |xs|];
        }
      }
    }
  }

  /** `getCROMSources` succeeds exactly when every animation does, and then gives their frames in order. */
  lemma {:induction false} SourcesOfAll(anims: seq<Animation>)
    ensures SourcesOf(anims).Ok? <==> forall i :: 0 <= i < |anims| ==> AnimationFrames(anims[i]).Ok?
    ensures SourcesOf(anims).Ok? ==>
              SourcesOf(anims).value == Flatten(seq(|anims|, i requires 0 <= i < |anims| => Value(AnimationFrames(anims[i]))))
  {
    var rs := FramesEach(anims);
    ChainAll(rs);
    var p := seq(|rs|, i requires 0 <= i < |rs| => Value(rs[i]));
    var q := seq(|anims|, i requires 0 <= i < |anims| => Value(AnimationFrames(anims[i])));
    assert p == q;
  }

  /** Two runs of animations one after the other: the frames of the second follow those of the first; the first error wins. */
  lemma {:induction false} SourcesAppend(xs: seq<Animation>, ys: seq<Animation>)
    ensures SourcesOf(xs + ys) == Then(SourcesOf(xs), SourcesOf(ys))
  {
    EachAppend(xs, ys, 0);
    ChainAppend(FramesEach(xs), FramesEach(ys));
  }

  /** The links of two runs: those of the first, then, unless the first throws, those of the second. */
  lemma {:induction false} LinksAppend(xs: seq<Animation>, ys: seq<Animation>, size: nat)
    requires AllFilled(xs, size) && AllFilled(ys, size)
    ensures AllFilled(xs + ys, size)
    ensures LinksOf(xs + ys, size) == if SourcesOf(xs).Err? then LinksOf(xs, size) else LinksOf(xs, size) + LinksOf(ys, size)
  {
    EachAppend(xs, ys, size);
    ChainLinksAppend(FramesEach(xs), LinksEach(xs, size), FramesEach(ys), LinksEach(ys, size));
  }

  /** One more animation of the same run. */
  lemma {:induction false} SourcesSnocAt(anims: seq<Animation>, j: nat, size: nat)
    requires j < |anims| && AllFilled(anims, size)
    ensures AllFilled(anims[..j], size) && AllFilled(anims[..j + 1], size)
    ensures SourcesOf(anims[..j + 1]) == Then(SourcesOf(anims[..j]), AnimationFrames(anims[j]))
    ensures LinksOf(anims[..j + 1], size)
            == if SourcesOf(anims[..j]).Err? then LinksOf(anims[..j], size)
               else LinksOf(anims[..j], size) + AnimationLinks(anims[j], size)
  {
    var xs, x := anims[..j], [anims[j]];
    assert anims[..j + 1] == xs + x;
    EachAppend(xs, x, size);
    ChainAppend(FramesEach(xs), FramesEach(x));
    ChainLinksAppend(FramesEach(xs), LinksEach(xs, size), FramesEach(x), LinksEach(x, size));
    var rx := FramesEach(x);
    assert rx[..0] == [];
    assert Chain(rx) == Then(Ok([]), AnimationFrames(anims[j]));
    if AnimationFrames(anims[j]).Ok? {
      assert [] + AnimationFrames(anims[j]).value == AnimationFrames(anims[j]).value;
    }
    var lx := LinksEach(x, size);
    assert lx[..0] == [];
    assert ChainLinks(rx, lx) == [] + AnimationLinks(anims[j], size);
  }

  /** An error among the first `k` animations is the error of them all. */
  lemma {:induction false} ErrSpreads(anims: seq<Animation>, k: nat, size: nat)
    requires k <= |anims| && AllFilled(anims, size) && SourcesOf(anims[..k]).Err?
    ensures AllFilled(anims[..k], size)
    ensures SourcesOf(anims) == SourcesOf(anims[..k])
    ensures LinksOf(anims, size) == LinksOf(anims[..k], size)
  {
    assert anims[..k] + anims[k..] == anims;
    SourcesAppend(anims[..k], anims[k..]);
    LinksAppend(anims[..k], anims[k..], size);
  }

  /**
   * The `reduce` over one input's animations: each animation's frames
   * appended to `building`, its auto-animation links made in the arena.
   * The first animation that throws ends it, with the links made before it
   * left in place.
   */
  method InputSources(arena: array<Tile>, anims: seq<Animation>) returns (r: Result<seq<Matrix>>)
    requires AllFilled(anims, arena.Length)
    modifies arena
    ensures r == SourcesOf(anims)
    ensures arena[..] == ApplyAll(old(arena[..]), LinksOf(anims, arena.Length))
  {
    ghost var a := arena[..];
    var building: seq<Matrix> := [];
    for j := 0 to |anims|
      invariant AllFilled(anims[..j], arena.Length)
      invariant SourcesOf(anims[..j]) == Ok(building)
      invariant arena[..] == ApplyAll(a, LinksOf(anims[..j], arena.Length))
    {
      SourcesSnocAt(anims, j, arena.Length);
      var frames := AnimationSources(arena, anims[j]);
      ApplyAllAppend(a, LinksOf(anims[..j], arena.Length), AnimationLinks(anims[j], arena.Length));
      if frames.Err? {
        ErrSpreads(anims, j + 1, arena.Length);
        return Err(frames.error);
      }
      building := building + frames.value;
    }
    assert anims[..|anims|] == anims;
    return Ok(building);
  }

  /**
   * `getCROMSources`: the `map` runs the `reduce` of every input in turn
   * and `flat(1)` joins what they return, so the result is every
   * animation's frames in input order; the first animation that throws
   * ends the call, with the links made before it left in the arena.
   */
  method CromSources(arena: array<Tile>, inputs: seq<AnimationInput>) returns (r: Result<seq<Matrix>>)
    requires AllFilled(AnimationsOf(inputs), arena.Length)
    modifies arena
    ensures r == SourcesOf(AnimationsOf(inputs))
    ensures arena[..] == ApplyAll(old(arena[..]), LinksOf(AnimationsOf(inputs), arena.Length))
  {
    ghost var a := arena[..];
    ghost var n := arena.Length;
    var all: seq<Matrix> := [];
    for i := 0 to |inputs|
      invariant AllFilled(AnimationsOf(inputs[..i]), n)
      invariant SourcesOf(AnimationsOf(inputs[..i])) == Ok(all)
      invariant arena[..] == ApplyAll(a, LinksOf(AnimationsOf(inputs[..i]), n))
    {
      InputStep(inputs, i, n);
      ApplyAllAppend(a, LinksOf(AnimationsOf(inputs[..i]), n), LinksOf(inputs[i].animations, n));
      var frames := InputSources(arena, inputs[i].animations);
      if frames.Err? {
        InputErr(inputs, i + 1, n);
        return Err(frames.error);
      }
      all := all + frames.value;
    }
    assert inputs[..|inputs|] == inputs;
    return Ok(all);
  }

  /** One pass of the `map`: the next input's animations after those before it. */
  lemma {:induction false} InputStep(inputs: seq<AnimationInput>, i: nat, size: nat)
    requires i < |inputs| && AllFilled(AnimationsOf(inputs), size)
    ensures AllFilled(AnimationsOf(inputs[..i]), size) && AllFilled(inputs[i].animations, size)
    ensures AllFilled(AnimationsOf(inputs[..i + 1]), size)
    ensures SourcesOf(AnimationsOf(inputs[..i + 1]))
            == Then(SourcesOf(AnimationsOf(inputs[..i])), SourcesOf(inputs[i].animations))
    ensures LinksOf(AnimationsOf(inputs[..i + 1]), size)
            == if SourcesOf(AnimationsOf(inputs[..i])).Err? then LinksOf(AnimationsOf(inputs[..i]), size)
               else LinksOf(AnimationsOf(inputs[..i]), size) + LinksOf(inputs[i].animations, size)
  {
    var before, anims := AnimationsOf(inputs[..i]), inputs[i].animations;
    var after := AnimationsOf(inputs[..i + 1]);
    AnimationsOfSnoc(inputs, i);
    AnimationsOfSplit(inputs, i + 1);
    AllFilledSplit(after, AnimationsOf(inputs[i + 1..]), size);
    AllFilledSplit(before, anims, size);
    SourcesAppend(before, anims);
    LinksAppend(before, anims, size);
  }

  /** An error among the animations of the first `k` inputs is the error of them all. */
  lemma {:induction false} InputErr(inputs: seq<AnimationInput>, k: nat, size: nat)
    requires k <= |inputs| && AllFilled(AnimationsOf(inputs), size) && SourcesOf(AnimationsOf(inputs[..k])).Err?
    ensures AllFilled(AnimationsOf(inputs[..k]), size)
    ensures SourcesOf(AnimationsOf(inputs)) == SourcesOf(AnimationsOf(inputs[..k]))
    ensures LinksOf(AnimationsOf(inputs), size) == LinksOf(AnimationsOf(inputs[..k]), size)
  {
    var xs, ys := AnimationsOf(inputs[..k]), AnimationsOf(inputs[k..]);
    AnimationsOfSplit(inputs, k);
    AllFilledSplit(xs, ys, size);
    SourcesAppend(xs, ys);
    LinksAppend(xs, ys, size);
  }
}
