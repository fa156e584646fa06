/**
 * Cutting a list of frames into consecutive runs, the two ways the
 * sprite-animation code emit does it: `splice(0, n)` over and over on one
 * array (`toCodeEmitAnimations`), and `slice(sliceIndex, sliceIndex + n)`
 * with a running index (`createAnimationDataForCodeEmit`).
 */
module Splices {
  import opened Seqs

  /** `splice(0, n)` on an array of `len` elements removes this many. */
  function SpliceCount(n: int, len: nat): (k: nat)
    ensures k <= len
    ensures 0 <= n <= len ==> k == n
  {
    if n < 0 then 0 else if n > len then len else n
  }

  /**
   * How many elements of `s` the splices before pass `i` have removed:
   * none before the first, and then what each `splice(0, counts[k])` could
   * take from what was left.
   */
  function Offset<T>(s: seq<T>, counts: seq<int>, i: nat): (r: nat)
    requires i <= |counts|
    ensures r <= |s|
  {
    if i == 0 then 0
    else
      var p := Offset(s, counts, i - 1);
      p + SpliceCount(counts[i - 1], |s| - p)
  }

  /** The run pass `i` of the splicing removes. */
  function Chunk<T>(s: seq<T>, counts: seq<int>, i: nat): seq<T>
    requires i < |counts|
  {
    var p := Offset(s, counts, i);
    s[p..p + SpliceCount(counts[i], |s| - p)]
  }

  /** The runs that splicing `counts[0]`, `counts[1]`, ... in turn off the front of `s` removes. */
  function Chunks<T>(s: seq<T>, counts: seq<int>): (r: seq<seq<T>>)
    ensures |r| == |counts|
  {
    seq(|counts|, i requires 0 <= i < |counts| => Chunk(s, counts, i))
  }

  /** Pass `i` of the splicing: run `i` comes off the front of what is left, and the rest stays. */
  lemma {:induction false} ChunksNext<T>(s: seq<T>, counts: seq<int>, i: nat)
    requires i < |counts|
    ensures var rest, k := s[Offset(s, counts, i)..], SpliceCount(counts[i], |s| - Offset(s, counts, i));
            rest[..k] == Chunk(s, counts, i) && rest[k..] == s[Offset(s, counts, i + 1)..]
  {
    var p := Offset(s, counts, i);
    var k := SpliceCount(counts[i], |s| - p);
    assert s[p..][..k] == s[p..p + k];
    assert s[p..][k..] == s[p + k..];
  }

  /** A spliced run holds elements of `s`. */
  lemma {:induction false} ChunkIn<T>(s: seq<T>, counts: seq<int>, i: nat, x: T)
    requires i < |counts| && x in Chunk(s, counts, i)
    ensures x in s
  {
    var p := Offset(s, counts, i);
    InRun(s, p, p + SpliceCount(counts[i], |s| - p), x);
  }

  /** An element of `s[a..b]` is an element of `s`. */
  lemma {:induction false} InRun<T>(s: seq<T>, a: nat, b: nat, x: T)
    requires a <= b <= |s| && x in s[a..b]
    ensures x in s
  {
    var j :| 0 <= j < b - a && s[a..b][j] == x;
    assert s[a + j] == x;
  }

  /** Run `i` of runs laid back to back at the front of `s` sits just after the runs before it. */
  lemma {:induction false} FlattenRun<T>(s: seq<T>, runs: seq<seq<T>>, i: nat)
    requires i < |runs| && Flatten(runs) <= s
    ensures |Flatten(runs[..i])| + |runs[i]| == |Flatten(runs[..i + 1])| <= |s|
    ensures s[|Flatten(runs[..i])|..|Flatten(runs[..i])| + |runs[i]|] == runs[i]
  {
    var p, run := |Flatten(runs[..i])|, runs[i];
    assert runs[..i + 1] == runs[..i] + [run];
    FlattenAppend(runs[..i], run);
    FlattenPrefix(runs, i + 1);
    var front := Flatten(runs[..i + 1]);
    assert front == s[..|front|];
    assert front[p..] == run;
    assert s[..|front|][p..] == s[p..p + |run|];
  }

  /** With runs laid back to back at the front of `s`, each as long as its count, pass `i` starts where the runs before it end. */
  lemma {:induction false} OffsetOwn<T>(s: seq<T>, runs: seq<seq<T>>, counts: seq<int>, i: nat)
    requires |runs| == |counts| && i <= |runs|
    requires forall k :: 0 <= k < |runs| ==> |runs[k]| == counts[k]
    requires Flatten(runs) <= s
    ensures Offset(s, counts, i) == |Flatten(runs[..i])|
  {
    if i == 0 {
      assert runs[..0] == [];
    } else {
      OffsetOwn(s, runs, counts, i - 1);
      FlattenRun(s, runs, i - 1);
    }
  }

  /** Runs laid back to back at the front of `s`, each as long as its count, are spliced off again run by run. */
  lemma {:induction false} ChunksOwn<T>(s: seq<T>, runs: seq<seq<T>>, counts: seq<int>)
    requires |runs| == |counts|
    requires forall k :: 0 <= k < |runs| ==> |runs[k]| == counts[k]
    requires Flatten(runs) <= s
    ensures Chunks(s, counts) == runs
  {
    forall i | 0 <= i < |runs| ensures Chunk(s, counts, i) == runs[i] {
      OffsetOwn(s, runs, counts, i);
      FlattenRun(s, runs, i);
    }
  }

  /** How many elements `slice(start, end)` of a `len`-element array holds. */
  function SliceLength(len: nat, start: int, end: int): (n: nat)
    ensures 0 <= start <= len ==> start + n <= len
  {
    var a, b := ClampIndex(start, len), ClampIndex(end, len);
    if a < b then b - a else 0
  }

  /** The slice holds as many elements as its length says. */
  lemma {:induction false} JsSliceLength<T>(s: seq<T>, start: int, end: int)
    ensures |JsSlice(s, start, end)| == SliceLength(|s|, start, end)
  {
  }

  /**
   * The `sliceIndex` slice `i` starts at: 0 for the first, and then past
   * what the previous slice actually held.
   */
  function SliceStart(len: nat, totals: seq<int>, i: nat): (r: nat)
    requires i <= |totals|
    ensures r <= len
  {
    if i == 0 then 0
    else
      var p := SliceStart(len, totals, i - 1);
      p + SliceLength(len, p, p + totals[i - 1])
  }

  /** Slice `i`: `slice(sliceIndex, sliceIndex + totals[i])`, the index running as above. */
  function Slice<T>(s: seq<T>, totals: seq<int>, i: nat): seq<T>
    requires i < |totals|
  {
    var p := SliceStart(|s|, totals, i);
    JsSlice(s, p, p + totals[i])
  }

  /** Every slice in turn. */
  function Slices<T>(s: seq<T>, totals: seq<int>): (r: seq<seq<T>>)
    ensures |r| == |totals|
  {
    seq(|totals|, i requires 0 <= i < |totals| => Slice(s, totals, i))
  }

  /** The index moves past what slice `i` held. */
  lemma {:induction false} SliceNext<T>(s: seq<T>, totals: seq<int>, i: nat)
    requires i < |totals|
    ensures SliceStart(|s|, totals, i + 1) == SliceStart(|s|, totals, i) + |Slice(s, totals, i)|
  {
    var p := SliceStart(|s|, totals, i);
    JsSliceLength(s, p, p + totals[i]);
  }

  /** A slice holds elements of `s`. */
  lemma {:induction false} SliceIn<T>(s: seq<T>, totals: seq<int>, i: nat, x: T)
    requires i < |totals| && x in Slice(s, totals, i)
    ensures x in s
  {
    var p := SliceStart(|s|, totals, i);
    var a, b := ClampIndex(p, |s|), ClampIndex(p + totals[i], |s|);
    InRun(s, a, b, x);
  }

  /** With runs laid back to back at the front of `s`, each as long as its total, slice `i` starts where the runs before it end. */
  lemma {:induction false} SliceStartOwn<T>(s: seq<T>, runs: seq<seq<T>>, totals: seq<int>, i: nat)
    requires |runs| == |totals| && i <= |runs|
    requires forall k :: 0 <= k < |runs| ==> |runs[k]| == totals[k]
    requires Flatten(runs) <= s
    ensures SliceStart(|s|, totals, i) == |Flatten(runs[..i])|
  {
    if i == 0 {
      assert runs[..0] == [];
    } else {
      SliceStartOwn(s, runs, totals, i - 1);
      FlattenRun(s, runs, i - 1);
    }
  }

  /** Runs laid back to back at the front of `s`, each as long as its total, are sliced off again run by run. */
  lemma {:induction false} SlicesOwn<T>(s: seq<T>, runs: seq<seq<T>>, totals: seq<int>)
    requires |runs| == |totals|
    requires forall k :: 0 <= k < |runs| ==> |runs[k]| == totals[k]
    requires Flatten(runs) <= s
    ensures Slices(s, totals) == runs
  {
    forall i | 0 <= i < |runs| ensures Slice(s, totals, i) == runs[i] {
      SliceStartOwn(s, runs, totals, i);
      FlattenRun(s, runs, i);
    }
  }
}
