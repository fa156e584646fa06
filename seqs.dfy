/**
 * The JavaScript array primitives the pipeline relies on: indexOf, a
 * first-occurrence uniq, slice with index clamping, splice, and arrays of
 * zeros.
 */
module Seqs {

  /** No value occurs twice in `s`. */
  predicate Distinct<T(==)>(s: seq<T>) {
    forall i, j :: 0 <= i < j < |s| ==> s[i] != s[j]
  }

  /** The values of a sequence, as a set. */
  ghost function Elems<T>(s: seq<T>): set<T> {
    set x | x in s
  }

  /** `Array.prototype.indexOf`: the first position holding `x`, or -1. */
  function IndexOf<T(==)>(s: seq<T>, x: T): (r: int)
    ensures -1 <= r < |s|
    ensures r == -1 <==> x !in s
    ensures r >= 0 ==> s[r] == x && forall j :: 0 <= j < r ==> s[j] != x
  {
    if |s| == 0 then -1
    else if s[0] == x then 0
    else
      var k := IndexOf(s[1..], x);
      if k == -1 then -1 else k + 1
  }

  /** In a sequence without repeats, indexOf of the element at `i` is `i`. */
  lemma {:induction false} IndexOfDistinct<T>(s: seq<T>, i: int)
    requires Distinct(s) && 0 <= i < |s|
    ensures IndexOf(s, s[i]) == i
  {
  }

  /**
   * A first-occurrence uniq (lodash `uniq` / `uniqBy` with a key that is
   * injective): keeps the first copy of every value, in order.
   */
  function Uniq<T(==)>(s: seq<T>): (r: seq<T>)
    ensures Distinct(r)
    ensures Elems(r) == Elems(s)
    ensures |r| <= |s|
  {
    if |s| == 0 then []
    else
      var u := Uniq(s[..|s| - 1]);
      assert s == s[..|s| - 1] + [s[|s| - 1]];
      ElemsSnoc(s[..|s| - 1], s[|s| - 1]);
      if s[|s| - 1] in u then u
      else
        ElemsSnoc(u, s[|s| - 1]);
        u + [s[|s| - 1]]
  }

  lemma {:induction false} ElemsSnoc<T>(s: seq<T>, x: T)
    ensures Elems(s + [x]) == Elems(s) + {x}
  {
    assert forall y :: y in s + [x] <==> y in s || y == x;
  }

  /** The first element of a non-empty sequence survives `Uniq` in front. */
  lemma {:induction false} UniqHead<T>(s: seq<T>)
    requires |s| > 0
    ensures |Uniq(s)| > 0 && Uniq(s)[0] == s[0]
  {
    if |s| > 1 {
      UniqHead(s[..|s| - 1]);
      assert s[..|s| - 1][0] == s[0];
    }
  }

  /** A non-empty sequence of copies of one value collapses to that value. */
  lemma {:induction false} UniqAllSame<T>(s: seq<T>, x: T)
    requires |s| > 0 && forall i :: 0 <= i < |s| ==> s[i] == x
    ensures Uniq(s) == [x]
  {
    if |s| > 1 {
      UniqAllSame(s[..|s| - 1], x);
    }
  }

  /** `Uniq` does nothing to a sequence without repeats. */
  lemma {:induction false} UniqOfDistinct<T>(s: seq<T>)
    requires Distinct(s)
    ensures Uniq(s) == s
  {
    if |s| > 0 {
      UniqOfDistinct(s[..|s| - 1]);
      assert s == s[..|s| - 1] + [s[|s| - 1]];
    }
  }

  /**
   * `Uniq` keeps first-occurrence order: of two kept values, the one that
   * appears first in the output appears first in the input.
   */
  lemma {:induction false} UniqKeepsOrder<T>(s: seq<T>, i: int, j: int)
    requires 0 <= i < j < |Uniq(s)|
    ensures IndexOf(s, Uniq(s)[i]) < IndexOf(s, Uniq(s)[j])
  {
    var p := s[..|s| - 1];
    var u := Uniq(p);
    assert s == p + [s[|s| - 1]];
    assert Uniq(s)[i] == u[i] && u[i] in Elems(u);
    IndexOfPrefix(s, |s| - 1, Uniq(s)[i]);
    if j < |u| {
      UniqKeepsOrder(p, i, j);
      assert Uniq(s)[j] == u[j] && u[j] in Elems(u);
      IndexOfPrefix(s, |s| - 1, Uniq(s)[j]);
    } else {
      assert s[|s| - 1] !in Elems(u);
      assert Uniq(s)[j] == s[|s| - 1] && s[|s| - 1] !in p;
      assert IndexOf(s, Uniq(s)[j]) == |s| - 1;
    }
  }

  /** indexOf in a prefix agrees with indexOf in the whole when the value is in the prefix. */
  lemma {:induction false} IndexOfPrefix<T>(s: seq<T>, n: int, x: T)
    requires 0 <= n <= |s| && x in s[..n]
    ensures IndexOf(s, x) == IndexOf(s[..n], x)
  {
    if s[0] != x {
      assert s[1..][..n - 1] == s[..n][1..];
      IndexOfPrefix(s[1..], n - 1, x);
    }
  }

  /** JavaScript's normalisation of a slice bound against a length. */
  function ClampIndex(k: int, len: nat): (r: nat)
    ensures r <= len
    ensures 0 <= k <= len ==> r == k
  {
    if k < 0 then (if len + k < 0 then 0 else len + k)
    else if k > len then len
    else k
  }

  /** `Array.prototype.slice(start, end)`, negative and excessive bounds included. */
  function JsSlice<T>(s: seq<T>, start: int, end: int): (r: seq<T>)
    ensures |r| <= |s|
    ensures 0 <= start <= |s| ==> start + |r| <= |s|
    ensures 0 <= start <= end <= |s| ==> r == s[start..end]
    ensures 0 <= start <= |s| <= end ==> r == s[start..]
  {
    var a := ClampIndex(start, |s|);
    var b := ClampIndex(end, |s|);
    if a < b then s[a..b] else []
  }

  /**
   * `Array.prototype.splice(start, deleteCount, ...items)`: the array it
   * leaves behind. A negative start counts from the end, a start past the
   * end appends, and the count is cut off at the end of the array.
   */
  function JsSplice<T>(s: seq<T>, start: int, count: nat, items: seq<T>): (r: seq<T>)
    ensures 0 <= start && start + count <= |s| ==> |r| == |s| - count + |items|
    ensures 0 <= start && start + count <= |s| ==> r[..start] == s[..start] && r[start..start + |items|] == items
    ensures 0 <= start && start + count <= |s| ==> r[start + |items|..] == s[start + count..]
    ensures |s| <= start ==> r == s + items
  {
    var a := ClampIndex(start, |s|);
    var b := if a + count <= |s| then a + count else |s|;
    s[..a] + items + s[b..]
  }

  /** `Array(n).fill(0)`. */
  function Zeros(n: nat): (r: seq<int>)
    ensures |r| == n
    ensures forall i :: 0 <= i < n ==> r[i] == 0
  {
    seq(n, _ => 0)
  }

  lemma {:induction false} ZerosAppend(m: nat, n: nat)
    ensures Zeros(m) + Zeros(n) == Zeros(m + n)
  {
  }

  /** The blocks `f(0) + f(1) + ... + f(n - 1)`, back to back. */
  function Blocks(f: int -> seq<int>, n: nat): seq<int> {
    if n == 0 then [] else Blocks(f, n - 1) + f(n - 1)
  }

  lemma {:induction false} BlocksLength(f: int -> seq<int>, w: nat, n: nat)
    requires forall j :: |f(j)| == w
    ensures |Blocks(f, n)| == w * n
  {
    if n > 0 {
      BlocksLength(f, w, n - 1);
    }
  }

  /** Element `k` of block `i` sits at `w * i + k`. */
  lemma {:induction false} BlocksAt(f: int -> seq<int>, w: nat, n: nat, i: int, k: int)
    requires forall j :: |f(j)| == w
    requires 0 <= i < n && 0 <= k < w
    ensures |Blocks(f, n)| == w * n
    ensures Blocks(f, n)[w * i + k] == f(i)[k]
  {
    BlocksLength(f, w, n);
    BlocksLength(f, w, n - 1);
    if i < n - 1 {
      BlocksAt(f, w, n - 1, i, k);
      BlockBefore(w, i, n - 1, k);
    }
  }

  /** Element `k` of block `i` lies before block `j > i`. */
  lemma {:induction false} BlockBefore(w: nat, i: int, j: int, k: int)
    requires 0 <= k < w && i < j
    ensures w * i + k < w * j
    decreases j - i
  {
    if i + 1 < j {
      BlockBefore(w, i, j - 1, k);
    }
    assert w * j == w * (j - 1) + w;
  }

  /** Zero blocks from `c` to `m` add `w * (m - c)` zeros. */
  lemma {:induction false} BlocksZeros(f: int -> seq<int>, w: nat, c: nat, m: nat)
    requires c <= m
    requires forall j :: c <= j < m ==> f(j) == Zeros(w)
    ensures Blocks(f, m) == Blocks(f, c) + Zeros(w * (m - c))
    decreases m
  {
    if c < m {
      BlocksZeros(f, w, c, m - 1);
      assert w * (m - c) == w * (m - 1 - c) + w;
      ZerosAppend(w * (m - 1 - c), w);
    }
  }

  lemma {:induction false} BlocksSame(f: int -> seq<int>, g: int -> seq<int>, n: nat)
    requires forall j :: 0 <= j < n ==> f(j) == g(j)
    ensures Blocks(f, n) == Blocks(g, n)
  {
    if n > 0 {
      BlocksSame(f, g, n - 1);
    }
  }

  /** Concatenation of a sequence of sequences (`flat()`). */
  function Flatten<T>(ss: seq<seq<T>>): (r: seq<T>)
  {
    if |ss| == 0 then [] else ss[0] + Flatten(ss[1..])
  }

  lemma {:induction false} FlattenAppend<T>(ss: seq<seq<T>>, t: seq<T>)
    ensures Flatten(ss + [t]) == Flatten(ss) + t
  {
    if |ss| > 0 {
      assert (ss + [t])[1..] == ss[1..] + [t];
      FlattenAppend(ss[1..], t);
    }
  }
  /** A prefix one longer is the prefix and the next element. */
  lemma {:induction false} PrefixNext<T>(s: seq<T>, i: nat)
    requires i < |s|
    ensures s[..i + 1] == s[..i] + [s[i]]
  {
  }

  /** The first `i` sequences joined begin all of them joined. */
  lemma {:induction false} FlattenPrefix<T>(ss: seq<seq<T>>, i: nat)
    requires i <= |ss|
    ensures Flatten(ss[..i]) <= Flatten(ss)
    decreases |ss| - i
  {
    if i == |ss| {
      assert ss[..i] == ss;
    } else {
      FlattenPrefix(ss, i + 1);
      assert ss[..i + 1] == ss[..i] + [ss[i]];
      FlattenAppend(ss[..i], ss[i]);
      var a, b, c := Flatten(ss[..i]), Flatten(ss[..i + 1]), Flatten(ss);
      assert b[..|a|] == a;
      assert c[..|b|][..|a|] == c[..|a|];
    }
  }

  /** The largest of a non-empty list: `Math.max(...)`. */
  function Max(s: seq<int>): (r: int)
    requires s != []
    ensures r in s && forall i :: 0 <= i < |s| ==> s[i] <= r
  {
    if |s| == 1 then s[0]
    else
      var m := Max(s[1..]);
      assert forall i :: 1 <= i < |s| ==> s[i] == s[1..][i - 1];
      if s[0] >= m then s[0] else m
  }
}
