/**
 * Python's `sorted(xs, key=key)`: a stable sort that compares the keys
 * with `<` only.  Modelled as an insertion sort; `SortUnique` shows that
 * every sorted, stable arrangement is this one, so any stable sorting
 * algorithm (Python's included) yields the same list.
 */
module StableSort {

  /** What `sorted` relies on: `<` on keys is transitive and irreflexive,
      and any two keys of elements are ordered one way or the other or equal. */
  ghost predicate IsKeyOrder<T(!new), K(!new)>(key: T -> K, less: (K, K) -> bool) {
    && (forall a, b, c :: less(a, b) && less(b, c) ==> less(a, c))
    && (forall a :: !less(a, a))
    && (forall x, y :: less(key(x), key(y)) || less(key(y), key(x)) || key(x) == key(y))
  }

  /** Insert `x` after every element whose key it is not smaller than. */
  function Insert<T, K>(x: T, s: seq<T>, key: T -> K, less: (K, K) -> bool): seq<T> {
    if s == [] then [x]
    else if less(key(x), key(s[0])) then [x] + s
    else [s[0]] + Insert(x, s[1..], key, less)
  }

  /** `sorted(xs, key=key)`. */
  function Sort<T, K>(xs: seq<T>, key: T -> K, less: (K, K) -> bool): seq<T> {
    if xs == [] then []
    else Insert(xs[|xs| - 1], Sort(xs[..|xs| - 1], key, less), key, less)
  }

  /** No element is followed by one whose key is smaller. */
  ghost predicate Sorted<T, K>(s: seq<T>, key: T -> K, less: (K, K) -> bool) {
    forall i, j :: 0 <= i < j < |s| ==> !less(key(s[j]), key(s[i]))
  }

  /** The elements of `s` whose key is `k`, in their order in `s`. */
  function WithKey<T, K(==)>(s: seq<T>, k: K, key: T -> K): seq<T> {
    if s == [] then []
    else (if key(s[0]) == k then [s[0]] else []) + WithKey(s[1..], k, key)
  }

  /** For every key, the elements with that key appear in `r` in the same
      order as in `s`. */
  ghost predicate Stable<T, K(!new)>(r: seq<T>, s: seq<T>, key: T -> K) {
    forall k :: WithKey(r, k, key) == WithKey(s, k, key)
  }

  // ----- WithKey -----

  lemma {:induction false} WithKeyAppend<T, K>(s: seq<T>, t: seq<T>, k: K, key: T -> K)
    ensures WithKey(s + t, k, key) == WithKey(s, k, key) + WithKey(t, k, key)
    decreases |s|
  {
    if s == [] {
      assert s + t == t;
    } else {
      var head: seq<T> := if key(s[0]) == k then [s[0]] else [];
      assert (s + t)[0] == s[0] && (s + t)[1..] == s[1..] + t;
      assert WithKey(s + t, k, key) == head + WithKey(s[1..] + t, k, key);
      WithKeyAppend(s[1..], t, k, key);
      assert WithKey(s, k, key) == head + WithKey(s[1..], k, key);
    }
  }

  lemma {:induction false} WithKeyNone<T, K>(s: seq<T>, k: K, key: T -> K)
    requires forall i :: 0 <= i < |s| ==> key(s[i]) != k
    ensures WithKey(s, k, key) == []
    decreases |s|
  {
    if s != [] {
      WithKeyNone(s[1..], k, key);
    }
  }

  lemma {:induction false} WithKeyMembers<T, K>(s: seq<T>, k: K, key: T -> K)
    ensures forall x :: x in WithKey(s, k, key) ==> x in s && key(x) == k
    decreases |s|
  {
    if s != [] {
      WithKeyMembers(s[1..], k, key);
    }
  }

  // ----- insertion -----

  lemma {:induction false} InsertPermutes<T, K>(x: T, s: seq<T>, key: T -> K, less: (K, K) -> bool)
    ensures multiset(Insert(x, s, key, less)) == multiset(s) + multiset{x}
    decreases |s|
  {
    if s != [] && !less(key(x), key(s[0])) {
      InsertPermutes(x, s[1..], key, less);
      assert s == [s[0]] + s[1..];
    }
  }

  lemma {:induction false} InsertSorted<T(!new), K(!new)>(x: T, s: seq<T>, key: T -> K, less: (K, K) -> bool)
    requires IsKeyOrder(key, less)
    requires Sorted(s, key, less)
    ensures Sorted(Insert(x, s, key, less), key, less)
    decreases |s|
  {
    if s == [] {
    } else if less(key(x), key(s[0])) {
      forall j | 0 <= j < |s| ensures !less(key(s[j]), key(x)) {
        if j > 0 {
          assert !less(key(s[j]), key(s[0]));
        }
      }
      PrependSorted(x, s, key, less);
    } else {
      var t := Insert(x, s[1..], key, less);
      InsertSorted(x, s[1..], key, less);
      InsertPermutes(x, s[1..], key, less);
      forall j | 0 <= j < |t| ensures !less(key(t[j]), key(s[0])) {
        assert t[j] in multiset(t);
        if t[j] != x {
          NotBelowFirst(s, t[j], key, less);
        }
      }
      PrependSorted(s[0], t, key, less);
    }
  }

  /** Putting in front of a sorted list an element whose key is not above
      any of the list's keys keeps it sorted. */
  lemma PrependSorted<T, K>(y: T, t: seq<T>, key: T -> K, less: (K, K) -> bool)
    requires Sorted(t, key, less)
    requires forall j :: 0 <= j < |t| ==> !less(key(t[j]), key(y))
    ensures Sorted([y] + t, key, less)
  {
    var r := [y] + t;
    forall i, j | 0 <= i < j < |r| ensures !less(key(r[j]), key(r[i])) {
      assert r[j] == t[j - 1];
      if i > 0 {
        assert r[i] == t[i - 1];
      }
    }
  }

  /** In a sorted list, no later element has a key below the first one's. */
  lemma NotBelowFirst<T, K>(s: seq<T>, y: T, key: T -> K, less: (K, K) -> bool)
    requires Sorted(s, key, less) && s != [] && y in s[1..]
    ensures !less(key(y), key(s[0]))
  {
    var i :| 0 <= i < |s[1..]| && s[1..][i] == y;
    assert s[i + 1] == y;
  }

  lemma {:induction false} InsertStable<T(!new), K(!new)>(x: T, s: seq<T>, k: K, key: T -> K, less: (K, K) -> bool)
    requires IsKeyOrder(key, less)
    requires Sorted(s, key, less)
    ensures WithKey(Insert(x, s, key, less), k, key) == WithKey(s, k, key) + WithKey([x], k, key)
    decreases |s|
  {
    if s == [] {
    } else if less(key(x), key(s[0])) {
      assert Insert(x, s, key, less) == [x] + s;
      InsertFront(x, s, k, key, less);
    } else {
      var t := Insert(x, s[1..], key, less);
      InsertStable(x, s[1..], k, key, less);
      assert Insert(x, s, key, less) == [s[0]] + t;
      WithKeyCons(s[0], t, s[1..], x, k, key);
      assert [s[0]] + s[1..] == s;
    }
  }

  /** `x` put in front of a sorted list whose keys are all above its own
      comes, within its key, after the list's elements (there are none). */
  lemma InsertFront<T(!new), K(!new)>(x: T, s: seq<T>, k: K, key: T -> K, less: (K, K) -> bool)
    requires IsKeyOrder(key, less)
    requires Sorted(s, key, less) && s != [] && less(key(x), key(s[0]))
    ensures WithKey([x] + s, k, key) == WithKey(s, k, key) + WithKey([x], k, key)
  {
    WithKeyAppend([x], s, k, key);
    if key(x) == k {
      NoneAfterSmaller(x, s, key, less);
      WithKeyNone(s, k, key);
    } else {
      assert WithKey([x], k, key) == [];
    }
  }

  /** Putting the same element in front of two lists keeps the relation
      between their elements of key `k`. */
  lemma WithKeyCons<T, K>(y: T, t: seq<T>, u: seq<T>, x: T, k: K, key: T -> K)
    requires WithKey(t, k, key) == WithKey(u, k, key) + WithKey([x], k, key)
    ensures WithKey([y] + t, k, key) == WithKey([y] + u, k, key) + WithKey([x], k, key)
  {
    WithKeyAppend([y], t, k, key);
    WithKeyAppend([y], u, k, key);
  }

  /** An element whose key is below the first key of a sorted list shares
      its key with no element of the list. */
  lemma NoneAfterSmaller<T(!new), K(!new)>(x: T, s: seq<T>, key: T -> K, less: (K, K) -> bool)
    requires IsKeyOrder(key, less)
    requires Sorted(s, key, less) && s != [] && less(key(x), key(s[0]))
    ensures forall i :: 0 <= i < |s| ==> key(s[i]) != key(x)
  {
    forall i | 0 <= i < |s| ensures key(s[i]) != key(x) {
      if i > 0 {
        assert !less(key(s[i]), key(s[0]));
      }
    }
  }

  // ----- the sort -----

  /** The result is a permutation of the input. */
  lemma {:induction false} SortPermutes<T, K>(xs: seq<T>, key: T -> K, less: (K, K) -> bool)
    ensures multiset(Sort(xs, key, less)) == multiset(xs)
    ensures |Sort(xs, key, less)| == |xs|
    decreases |xs|
  {
    if xs != [] {
      var init := xs[..|xs| - 1];
      SortPermutes(init, key, less);
      InsertPermutes(xs[|xs| - 1], Sort(init, key, less), key, less);
      assert xs == init + [xs[|xs| - 1]];
    }
  }

  /** No element of the result is followed by one with a smaller key. */
  lemma {:induction false} SortSorted<T(!new), K(!new)>(xs: seq<T>, key: T -> K, less: (K, K) -> bool)
    requires IsKeyOrder(key, less)
    ensures Sorted(Sort(xs, key, less), key, less)
    decreases |xs|
  {
    if xs != [] {
      SortSorted(xs[..|xs| - 1], key, less);
      InsertSorted(xs[|xs| - 1], Sort(xs[..|xs| - 1], key, less), key, less);
    }
  }

  /** Elements with equal keys keep their input order. */
  lemma {:induction false} SortStable<T(!new), K(!new)>(xs: seq<T>, key: T -> K, less: (K, K) -> bool)
    requires IsKeyOrder(key, less)
    ensures Stable(Sort(xs, key, less), xs, key)
    decreases |xs|
  {
    if xs != [] {
      var init, last := xs[..|xs| - 1], xs[|xs| - 1];
      SortStable(init, key, less);
      SortSorted(init, key, less);
      forall k ensures WithKey(Sort(xs, key, less), k, key) == WithKey(xs, k, key) {
        InsertStable(last, Sort(init, key, less), k, key, less);
        WithKeyAppend(init, [last], k, key);
        assert xs == init + [last];
      }
    }
  }

  /** Two sorted lists holding, key by key, the same elements in the same
      order are equal. */
  lemma {:induction false} SortedStableEqual<T(!new), K(!new)>(r: seq<T>, t: seq<T>, key: T -> K, less: (K, K) -> bool)
    requires IsKeyOrder(key, less)
    requires Sorted(r, key, less) && Sorted(t, key, less) && Stable(r, t, key)
    ensures r == t
    decreases |r|
  {
    // a non-empty list has a key whose elements the other list must hold too
    if r != [] {
      assert WithKey(r, key(r[0]), key) != [];
    }
    if t != [] {
      assert WithKey(t, key(t[0]), key) != [];
    }
    if r != [] && t != [] {
      var kr, kt := key(r[0]), key(t[0]);
      // each list's first key occurs in the other list, where nothing is smaller
      WithKeyMembers(t, kr, key);
      assert WithKey(r, kr, key)[0] == r[0];
      var x := WithKey(t, kr, key)[0];
      assert x in t && key(x) == kr;
      WithKeyMembers(r, kt, key);
      assert WithKey(t, kt, key)[0] == t[0];
      var y := WithKey(r, kt, key)[0];
      assert y in r && key(y) == kt;
      var j :| 0 <= j < |t| && t[j] == x;
      var i :| 0 <= i < |r| && r[i] == y;
      assert !less(kr, kt) by { if j > 0 { assert !less(key(t[j]), key(t[0])); } }
      assert !less(kt, kr) by { if i > 0 { assert !less(key(r[i]), key(r[0])); } }
      assert kr == kt;
      assert r[0] == t[0];
      forall k ensures WithKey(r[1..], k, key) == WithKey(t[1..], k, key) {
        var a := if kr == k then [r[0]] else [];
        var wr, wt := WithKey(r[1..], k, key), WithKey(t[1..], k, key);
        assert WithKey(r, k, key) == a + wr;
        assert WithKey(t, k, key) == a + wt;
        assert WithKey(r, k, key) == WithKey(t, k, key);
        assert wr == (a + wr)[|a|..] && wt == (a + wt)[|a|..];
      }
      SortedStableEqual(r[1..], t[1..], key, less);
      assert r == [r[0]] + r[1..] && t == [t[0]] + t[1..];
    }
  }

  /** Any sorted arrangement that keeps equal keys in input order is the
      one `Sort` returns. */
  lemma SortUnique<T(!new), K(!new)>(xs: seq<T>, r: seq<T>, key: T -> K, less: (K, K) -> bool)
    requires IsKeyOrder(key, less)
    requires Sorted(r, key, less) && Stable(r, xs, key)
    ensures r == Sort(xs, key, less)
  {
    SortSorted(xs, key, less);
    SortStable(xs, key, less);
    SortedStableEqual(r, Sort(xs, key, less), key, less);
  }
}
