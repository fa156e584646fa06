/**
 * The canonical order of a 16-bit palette (`sortPalette`) and the union of
 * two palettes (`mergeTwoPalettes`): the transparent colour first, then
 * the remaining colours ascending, without repeats.
 */
module PaletteSort {
  import opened Color
  import opened Seqs

  /** The comparator's order: transparent before everything, then numeric. */
  predicate Before(a: int, b: int) {
    a == TRANSPARENT16 || (b != TRANSPARENT16 && a <= b)
  }

  predicate PaletteSorted(p: seq<int>) {
    forall i, j :: 0 <= i < j < |p| ==> Before(p[i], p[j])
  }

  /** Puts `x` in front of the first colour it may precede. */
  function InsertColor(x: int, r: seq<int>): (q: seq<int>)
    ensures |q| == |r| + 1
  {
    if |r| == 0 then [x]
    else if Before(x, r[0]) then [x] + r
    else [r[0]] + InsertColor(x, r[1..])
  }

  /** Inserting adds `x` and loses nothing. */
  lemma {:induction false} InsertColorPerm(x: int, r: seq<int>)
    ensures multiset(InsertColor(x, r)) == multiset(r) + multiset{x}
  {
    if |r| > 0 && !Before(x, r[0]) {
      InsertColorPerm(x, r[1..]);
      assert r == [r[0]] + r[1..];
    }
  }

  lemma {:induction false} InsertColorSorted(x: int, r: seq<int>)
    requires PaletteSorted(r)
    ensures PaletteSorted(InsertColor(x, r))
  {
    if |r| > 0 && !Before(x, r[0]) {
      var t := InsertColor(x, r[1..]);
      InsertColorSorted(x, r[1..]);
      InsertColorPerm(x, r[1..]);
      forall j | 0 <= j < |t| ensures Before(r[0], t[j]) {
        assert t[j] in multiset(t);
        if t[j] != x {
          assert t[j] in multiset(r[1..]);
          var k :| 0 <= k < |r[1..]| && r[1..][k] == t[j];
          assert r[1..][k] == r[k + 1];
        }
      }
    }
  }

  /** The `clone.sort(comparator)` step, as an insertion sort. */
  function SortColors(p: seq<int>): (r: seq<int>)
    ensures multiset(r) == multiset(p)
    ensures PaletteSorted(r)
  {
    if |p| == 0 then []
    else
      assert p == [p[0]] + p[1..];
      InsertColorSorted(p[0], SortColors(p[1..]));
      InsertColorPerm(p[0], SortColors(p[1..]));
      InsertColor(p[0], SortColors(p[1..]))
  }

  /** Sequences with equal multisets hold the same values. */
  lemma {:induction false} SameMembers(s: seq<int>, p: seq<int>)
    requires multiset(s) == multiset(p)
    ensures Elems(s) == Elems(p)
  {
    forall x ensures x in s <==> x in p {
      assert x in s <==> x in multiset(s);
      assert x in p <==> x in multiset(p);
    }
  }

  /** Removing repeats from a sorted palette leaves it sorted. */
  lemma {:induction false} UniqSorted(s: seq<int>)
    requires PaletteSorted(s)
    ensures PaletteSorted(Uniq(s))
  {
    var u := Uniq(s);
    forall i, j | 0 <= i < j < |u| ensures Before(u[i], u[j]) {
      assert u[i] in Elems(u) && u[j] in Elems(u);
      UniqKeepsOrder(s, i, j);
    }
  }

  /**
   * `sortPalette`: the colours of `p`, each once, transparent first and the
   * rest strictly ascending.
   */
  function SortPalette(p: seq<int>): (r: seq<int>)
    ensures Distinct(r) && PaletteSorted(r)
    ensures Elems(r) == Elems(p)
    ensures TRANSPARENT16 in p ==> |r| > 0 && r[0] == TRANSPARENT16
  {
    var s := SortColors(p);
    UniqSorted(s);
    SameMembers(s, p);
    var r := Uniq(s);
    assert TRANSPARENT16 in p ==> TRANSPARENT16 in Elems(r);
    TransparentFirst(r);
    r
  }

  /** In a sorted palette the transparent colour, when present, leads. */
  lemma {:induction false} TransparentFirst(r: seq<int>)
    requires PaletteSorted(r)
    ensures TRANSPARENT16 in r ==> r[0] == TRANSPARENT16
  {
    if TRANSPARENT16 in r {
      var k :| 0 <= k < |r| && r[k] == TRANSPARENT16;
      if k > 0 { assert Before(r[0], r[k]); }
    }
  }

  lemma {:induction false} NoElems(p: seq<int>)
    ensures Elems(p) == {} <==> |p| == 0
  {
    if |p| > 0 {
      assert p[0] in Elems(p);
    }
  }

  /** Two sorted palettes without repeats that hold the same colours are equal. */
  lemma {:induction false} CanonicalUnique(a: seq<int>, b: seq<int>)
    requires Distinct(a) && PaletteSorted(a) && Distinct(b) && PaletteSorted(b)
    requires Elems(a) == Elems(b)
    ensures a == b
  {
    NoElems(a);
    NoElems(b);
    if |a| > 0 && |b| > 0 {
      assert a[0] in Elems(b) && b[0] in Elems(a);
      var ka :| 0 <= ka < |b| && b[ka] == a[0];
      var kb :| 0 <= kb < |a| && a[kb] == b[0];
      assert Before(a[0], a[kb]);
      assert Before(b[0], b[ka]);
      assert a[0] == b[0];
      assert Elems(a[1..]) == Elems(b[1..]) by {
        forall x ensures x in Elems(a[1..]) <==> x in Elems(b[1..]) {
          if x in a[1..] {
            var i :| 0 <= i < |a[1..]| && a[1..][i] == x;
            assert x in Elems(b);
            assert x != b[0];
          }
          if x in b[1..] {
            var i :| 0 <= i < |b[1..]| && b[1..][i] == x;
            assert x in Elems(a);
            assert x != a[0];
          }
        }
      }
      CanonicalUnique(a[1..], b[1..]);
      assert a == [a[0]] + a[1..] && b == [b[0]] + b[1..];
    }
  }

  /** The canonical order depends only on the set of colours. */
  lemma {:induction false} SortPaletteBySet(p: seq<int>, q: seq<int>)
    requires Elems(p) == Elems(q)
    ensures SortPalette(p) == SortPalette(q)
  {
    var a, b := SortPalette(p), SortPalette(q);
    assert Elems(a) == Elems(p);
    assert Elems(b) == Elems(q);
    CanonicalUnique(a, b);
  }

  /** Sorting a sorted palette changes nothing. */
  lemma {:induction false} SortPaletteIdempotent(p: seq<int>)
    ensures SortPalette(SortPalette(p)) == SortPalette(p)
  {
    var r := SortPalette(p);
    assert Elems(SortPalette(r)) == Elems(r);
    CanonicalUnique(SortPalette(r), r);
  }

  /** A sorted palette without repeats is its own canonical form. */
  lemma {:induction false} SortPaletteOfCanonical(p: seq<int>)
    requires Distinct(p) && PaletteSorted(p)
    ensures SortPalette(p) == p
  {
    assert Elems(SortPalette(p)) == Elems(p);
    CanonicalUnique(SortPalette(p), p);
  }

  /** A palette without repeats has as many entries as colours. */
  lemma {:induction false} DistinctCard(p: seq<int>)
    requires Distinct(p)
    ensures |Elems(p)| == |p|
  {
    if |p| > 0 {
      DistinctCard(p[1..]);
      assert Elems(p) == Elems(p[1..]) + {p[0]};
      assert p[0] !in Elems(p[1..]);
    }
  }

  /** `mergeTwoPalettes`: the canonical palette of the union. */
  function MergeTwoPalettes(pa: seq<int>, pb: seq<int>): (r: seq<int>)
    ensures Distinct(r) && PaletteSorted(r)
    ensures Elems(r) == Elems(pa) + Elems(pb)
    ensures |r| == |Elems(pa) + Elems(pb)|
  {
    var r := SortPalette(pa + pb);
    assert Elems(r) == Elems(pa) + Elems(pb) by {
      forall x ensures x in Elems(r) <==> x in Elems(pa) + Elems(pb) {
        assert x in pa + pb <==> x in pa || x in pb;
      }
    }
    DistinctCard(r);
    r
  }

  /** The merge does not depend on which palette comes first. */
  lemma {:induction false} MergeTwoPalettesCommutes(pa: seq<int>, pb: seq<int>)
    ensures MergeTwoPalettes(pa, pb) == MergeTwoPalettes(pb, pa)
  {
    CanonicalUnique(MergeTwoPalettes(pa, pb), MergeTwoPalettes(pb, pa));
  }
}
