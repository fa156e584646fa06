/**
 * `Array.prototype.sort` with the pipeline's `sortByCromIndex` /
 * `sortBySromIndex` comparators: tiles with an index come first, in
 * ascending order, tiles without one last. The sort is stable, as V8's is.
 */
module Sorting {
  import opened Wrappers
  import opened Seqs

  /** The comparator's order on keys: defined before undefined, then ascending. */
  predicate KeyLe(a: Option<int>, b: Option<int>) {
    b.None? || (a.Some? && a.value <= b.value)
  }

  /** The comparator returns a negative number. */
  predicate KeyLess(a: Option<int>, b: Option<int>) {
    a.Some? && (b.None? || a.value < b.value)
  }

  /** `s` is ordered by the comparator. */
  predicate SortedByKey<T>(s: seq<T>, key: T -> Option<int>) {
    forall i, j :: 0 <= i < j < |s| ==> KeyLe(key(s[i]), key(s[j]))
  }

  /** `[x for x in s if p(x)]`. */
  function Filter<T>(s: seq<T>, p: T -> bool): (r: seq<T>)
    ensures |r| <= |s|
    ensures forall i :: 0 <= i < |r| ==> p(r[i])
  {
    if |s| == 0 then []
    else
      assert s == s[..|s| - 1] + [s[|s| - 1]];
      if p(s[|s| - 1]) then Filter(s[..|s| - 1], p) + [s[|s| - 1]]
      else Filter(s[..|s| - 1], p)
  }

  /** The filter keeps elements of its input only, each at most as often. */
  lemma {:induction false} FilterSubMultiset<T>(s: seq<T>, p: T -> bool)
    ensures multiset(Filter(s, p)) <= multiset(s)
  {
    if |s| > 0 {
      FilterSubMultiset(s[..|s| - 1], p);
      assert s == s[..|s| - 1] + [s[|s| - 1]];
    }
  }

  lemma {:induction false} FilterAppend<T>(s: seq<T>, t: seq<T>, p: T -> bool)
    ensures Filter(s + t, p) == Filter(s, p) + Filter(t, p)
  {
    if |t| > 0 {
      assert (s + t)[..|s + t| - 1] == s + t[..|t| - 1];
      FilterAppend(s, t[..|t| - 1], p);
    } else {
      assert s + t == s;
    }
  }

  /** The filter of a list with one more element at the back. */
  lemma {:induction false} FilterSnoc<T>(s: seq<T>, x: T, p: T -> bool)
    ensures Filter(s + [x], p) == Filter(s, p) + (if p(x) then [x] else [])
  {
    assert (s + [x])[..|s|] == s;
  }

  /** The filter keeps every element `p` accepts. */
  lemma {:induction false} FilterKeeps<T>(s: seq<T>, p: T -> bool, x: T)
    requires x in s && p(x)
    ensures x in Filter(s, p)
  {
    var init := s[..|s| - 1];
    assert s == init + [s[|s| - 1]];
    if x != s[|s| - 1] {
      assert x in init;
      FilterKeeps(init, p, x);
    }
  }

  /** The filter keeps only elements of its input. */
  lemma {:induction false} FilterFrom<T>(s: seq<T>, p: T -> bool, x: T)
    requires x in Filter(s, p)
    ensures x in s
  {
    FilterSubMultiset(s, p);
    assert x in multiset(Filter(s, p));
  }

  /** An element the filter kept satisfies its predicate. */
  lemma {:induction false} FilterPicked<T>(s: seq<T>, p: T -> bool, x: T)
    requires x in Filter(s, p)
    ensures p(x)
  {
    var k :| 0 <= k < |Filter(s, p)| && Filter(s, p)[k] == x;
  }

  /** The filter of a list without repeats has none. */
  lemma {:induction false} FilterDistinct<T>(s: seq<T>, p: T -> bool)
    requires Distinct(s)
    ensures Distinct(Filter(s, p))
  {
    if |s| > 0 {
      var init, x := s[..|s| - 1], s[|s| - 1];
      assert Distinct(init);
      FilterDistinct(init, p);
      if p(x) {
        var f := Filter(init, p);
        forall i | 0 <= i < |f| ensures f[i] != x {
          FilterFrom(init, p, f[i]);
        }
      }
    }
  }


  /** `x` inserted before the first element of `r` that sorts after it. */
  function Insert<T>(x: T, r: seq<T>, key: T -> Option<int>): (q: seq<T>)
    ensures |q| == |r| + 1
  {
    if |r| == 0 then [x]
    else if KeyLess(key(x), key(r[0])) then [x] + r
    else
      assert r == [r[0]] + r[1..];
      [r[0]] + Insert(x, r[1..], key)
  }

  /** Inserting adds `x` and keeps every other element. */
  lemma {:induction false} InsertMultiset<T>(x: T, r: seq<T>, key: T -> Option<int>)
    ensures multiset(Insert(x, r, key)) == multiset(r) + multiset{x}
  {
    if |r| > 0 && !KeyLess(key(x), key(r[0])) {
      InsertMultiset(x, r[1..], key);
      assert r == [r[0]] + r[1..];
    }
  }

  /** A stable insertion sort, specified by the lemmas below. */
  function SortByKey<T>(s: seq<T>, key: T -> Option<int>): (r: seq<T>)
    ensures |r| == |s|
    ensures multiset(r) == multiset(s)
  {
    if |s| == 0 then []
    else
      assert s == s[..|s| - 1] + [s[|s| - 1]];
      InsertMultiset(s[|s| - 1], SortByKey(s[..|s| - 1], key), key);
      Insert(s[|s| - 1], SortByKey(s[..|s| - 1], key), key)
  }

  lemma {:induction false} InsertSorted<T>(x: T, r: seq<T>, key: T -> Option<int>)
    requires SortedByKey(r, key)
    ensures SortedByKey(Insert(x, r, key), key)
  {
    if |r| > 0 && !KeyLess(key(x), key(r[0])) {
      InsertSorted(x, r[1..], key);
      InsertMultiset(x, r[1..], key);
      var q := Insert(x, r[1..], key);
      assert forall e | e in multiset(q) :: e == x || e in multiset(r[1..]);
      forall j | 0 <= j < |q| ensures KeyLe(key(r[0]), key(q[j])) {
        assert q[j] in multiset(q);
        if q[j] != x {
          assert q[j] in r[1..];
        }
      }
    }
  }

  /** The sort orders its output by the comparator. */
  lemma {:induction false} SortByKeySorted<T>(s: seq<T>, key: T -> Option<int>)
    ensures SortedByKey(SortByKey(s, key), key)
  {
    if |s| > 0 {
      SortByKeySorted(s[..|s| - 1], key);
      InsertSorted(s[|s| - 1], SortByKey(s[..|s| - 1], key), key);
    }
  }

  /** Inserting an element without a key appends it at the end. */
  lemma {:induction false} InsertUnkeyed<T>(x: T, r: seq<T>, key: T -> Option<int>)
    requires key(x).None?
    ensures Insert(x, r, key) == r + [x]
  {
    if |r| > 0 {
      InsertUnkeyed(x, r[1..], key);
      assert r == [r[0]] + r[1..];
    }
  }

  /** Inserting an element that `p` rejects leaves the `p`-elements as they were. */
  lemma {:induction false} InsertRejected<T>(x: T, r: seq<T>, key: T -> Option<int>, p: T -> bool)
    requires !p(x)
    ensures Filter(Insert(x, r, key), p) == Filter(r, p)
  {
    if |r| == 0 {
      assert Filter([x], p) == Filter([], p) by { assert [x][..0] == []; }
    } else if KeyLess(key(x), key(r[0])) {
      FilterAppend([x], r, p);
      assert Filter([x], p) == [] by { assert [x][..0] == []; }
    } else {
      InsertRejected(x, r[1..], key, p);
      FilterAppend([r[0]], Insert(x, r[1..], key), p);
      FilterAppend([r[0]], r[1..], p);
      assert r == [r[0]] + r[1..];
    }
  }

  /**
   * Stability, as the fix-layer allocator relies on it: the elements that a
   * filter keeps, when it only keeps elements without a key, come out of
   * the sort in their input order.
   */
  lemma {:induction false} SortKeepsUnkeyedOrder<T>(s: seq<T>, key: T -> Option<int>, p: T -> bool)
    requires forall x :: p(x) ==> key(x).None?
    ensures Filter(SortByKey(s, key), p) == Filter(s, p)
  {
    if |s| > 0 {
      var init, x := s[..|s| - 1], s[|s| - 1];
      SortKeepsUnkeyedOrder(init, key, p);
      if p(x) {
        InsertUnkeyed(x, SortByKey(init, key), key);
        FilterAppend(SortByKey(init, key), [x], p);
        assert Filter([x], p) == [x] by { assert [x][..0] == []; }
      } else {
        InsertRejected(x, SortByKey(init, key), key, p);
      }
    }
  }

  /** A filter that rejects every element. */
  lemma {:induction false} FilterNone<T>(s: seq<T>, p: T -> bool)
    requires forall i :: 0 <= i < |s| ==> !p(s[i])
    ensures Filter(s, p) == []
  {
    if |s| > 0 {
      FilterNone(s[..|s| - 1], p);
    }
  }

  /**
   * Inserting an element that `p` keeps, when `p` keeps only elements with
   * its key, puts it after every `p`-element of a sorted list.
   */
  lemma {:induction false} InsertKeyed<T>(x: T, r: seq<T>, key: T -> Option<int>, p: T -> bool)
    requires SortedByKey(r, key) && p(x)
    requires forall y :: p(y) ==> key(y) == key(x)
    ensures Filter(Insert(x, r, key), p) == Filter(r, p) + [x]
  {
    if |r| == 0 {
      assert [x][..0] == [];
    } else if KeyLess(key(x), key(r[0])) {
      InsertKeyedFront(x, r, key, p);
    } else {
      SortedTail(r, key);
      InsertKeyed(x, r[1..], key, p);
      InsertKeyedLater(x, r, key, p);
    }
  }

  lemma {:induction false} InsertKeyedFront<T>(x: T, r: seq<T>, key: T -> Option<int>, p: T -> bool)
    requires SortedByKey(r, key) && p(x) && r != [] && KeyLess(key(x), key(r[0]))
    requires forall y :: p(y) ==> key(y) == key(x)
    ensures Filter(Insert(x, r, key), p) == Filter(r, p) + [x]
  {
    AfterLarger(x, r, key, p);
    FilterAppend([x], r, p);
    assert [x][..0] == [];
    assert Insert(x, r, key) == [x] + r;
  }

  /** The step of `InsertKeyed` past the head, given its result for the tail. */
  lemma {:induction false} InsertKeyedLater<T>(x: T, r: seq<T>, key: T -> Option<int>, p: T -> bool)
    requires r != [] && !KeyLess(key(x), key(r[0]))
    requires Filter(Insert(x, r[1..], key), p) == Filter(r[1..], p) + [x]
    ensures Filter(Insert(x, r, key), p) == Filter(r, p) + [x]
  {
    var q := Insert(x, r[1..], key);
    var h := Filter([r[0]], p);
    assert Insert(x, r, key) == [r[0]] + q;
    assert Filter([r[0]] + q, p) == h + Filter(q, p) by {
      FilterAppend([r[0]], q, p);
    }
    assert Filter(r, p) == h + Filter(r[1..], p) by {
      FilterAppend([r[0]], r[1..], p);
      assert r == [r[0]] + r[1..];
    }
    assert h + (Filter(r[1..], p) + [x]) == (h + Filter(r[1..], p)) + [x];
  }

  /** A sorted list whose head sorts after `x` holds nothing with `x`'s key. */
  lemma {:induction false} AfterLarger<T>(x: T, r: seq<T>, key: T -> Option<int>, p: T -> bool)
    requires SortedByKey(r, key) && r != [] && KeyLess(key(x), key(r[0]))
    requires forall y :: p(y) ==> key(y) == key(x)
    ensures Filter(r, p) == []
  {
    forall i | 0 <= i < |r| ensures !p(r[i]) {
      if i > 0 {
        assert KeyLe(key(r[0]), key(r[i]));
      }
    }
    FilterNone(r, p);
  }

  lemma {:induction false} SortedTail<T>(r: seq<T>, key: T -> Option<int>)
    requires SortedByKey(r, key) && r != []
    ensures SortedByKey(r[1..], key)
  {
    forall i, j | 0 <= i < j < |r[1..]| ensures KeyLe(key(r[1..][i]), key(r[1..][j])) {
      assert r[1..][i] == r[i + 1] && r[1..][j] == r[j + 1];
    }
  }

  /**
   * Stability for one key: the elements a filter keeps, when it only keeps
   * elements sharing one key, come out of the sort in their input order.
   */
  lemma {:induction false} SortKeepsKeyOrder<T>(s: seq<T>, key: T -> Option<int>, p: T -> bool)
    requires forall y, z :: p(y) && p(z) ==> key(y) == key(z)
    ensures Filter(SortByKey(s, key), p) == Filter(s, p)
  {
    if |s| > 0 {
      var init, x := s[..|s| - 1], s[|s| - 1];
      SortKeepsKeyOrder(init, key, p);
      if p(x) {
        SortByKeySorted(init, key);
        InsertKeyed(x, SortByKey(init, key), key, p);
      } else {
        InsertRejected(x, SortByKey(init, key), key, p);
      }
    }
  }
}
