/**
 * `sorted(files, key=natural_keys)` in `select_files` (smerge.py): the
 * selected paths ordered by the natural key of their base names, equal
 * keys in the order the file dialog returned them.
 */
module NaturalSort {
  import opened Lexicographic
  import opened NaturalKey
  import Paths
  import StableSort

  /** `natural_keys(p) < natural_keys(q)` for two key lists. */
  predicate KeyLess(a: seq<Token>, b: seq<Token>) {
    CompareKeys(a, b) == Lt
  }

  /** No path is followed by one whose base name has a smaller natural key. */
  ghost predicate InNaturalOrder(files: seq<string>) {
    forall i, j :: 0 <= i < j < |files| ==> !KeyLess(Key(files[j]), Key(files[i]))
  }

  /** `sorted(files, key=natural_keys)`. */
  function SortPaths(files: seq<string>): seq<string> {
    StableSort.Sort(files, Key, KeyLess)
  }

  /** Natural keys of paths meet what a stable sort needs: `<` on keys is
      transitive and irreflexive, and any two paths' keys are ordered or equal. */
  lemma NaturalKeyOrder()
    ensures StableSort.IsKeyOrder(Key, KeyLess)
  {
    TokensAreCompared();
    forall a: seq<Token>, b: seq<Token>, c: seq<Token> | KeyLess(a, b) && KeyLess(b, c)
      ensures KeyLess(a, c)
    {
      LexTrans(a, b, c, CompareTokens);
    }
    forall a: seq<Token> ensures !KeyLess(a, a) {
      LexEq(a, a, CompareTokens);
    }
    forall p: string, q: string
      ensures KeyLess(Key(p), Key(q)) || KeyLess(Key(q), Key(p)) || Key(p) == Key(q)
    {
      KeysComparable(p, q);
      LexEq(Key(p), Key(q), CompareTokens);
      LexFlip(Key(p), Key(q), CompareTokens);
    }
  }

  /** The sorted selection is a permutation of the selection (full paths,
      unchanged); no path is followed by one whose base name has a smaller
      natural key; and paths with equal keys keep their input order. */
  lemma SortPathsCorrect(files: seq<string>)
    ensures var r := SortPaths(files);
      && |r| == |files| && multiset(r) == multiset(files)
      && InNaturalOrder(r)
      && (forall k :: StableSort.WithKey(r, k, Key) == StableSort.WithKey(files, k, Key))
  {
    NaturalKeyOrder();
    StableSort.SortPermutes(files, Key, KeyLess);
    StableSort.SortSorted(files, Key, KeyLess);
    StableSort.SortStable(files, Key, KeyLess);
  }

  /** The order is fully determined: any arrangement of the selection that
      is sorted by natural key and keeps ties in input order is `SortPaths`. */
  lemma SortPathsUnique(files: seq<string>, r: seq<string>)
    requires InNaturalOrder(r)
    requires forall k :: StableSort.WithKey(r, k, Key) == StableSort.WithKey(files, k, Key)
    ensures r == SortPaths(files)
  {
    NaturalKeyOrder();
    StableSort.SortUnique(files, r, Key, KeyLess);
  }

  /** Sorting a sorted selection changes nothing. */
  lemma SortPathsIdempotent(files: seq<string>)
    ensures SortPaths(SortPaths(files)) == SortPaths(files)
  {
    var r := SortPaths(files);
    SortPathsCorrect(files);
    SortPathsUnique(r, r);
  }

  /** Two names that differ only in one digit run compare by the runs'
      numeric values, not by their characters. The text before the run may
      hold digits but does not end in one; the text after does not start
      with one (`track1.wav` against `track10.wav`, or `cd2-track3` against
      `cd2-track12`). */
  lemma NumbersCompareByValue(p: string, q: string, pre: string, m: string, m': string, r: string)
    requires Paths.Basename(p) == pre + m + r && Paths.Basename(q) == pre + m' + r
    requires pre == [] || !IsDigit(pre[|pre| - 1])
    requires r == [] || !IsDigit(r[0])
    requires m != [] && AllDigits(m) && m' != [] && AllDigits(m')
    ensures KeyLess(Key(p), Key(q)) <==> DecimalValue(m) < DecimalValue(m')
    ensures Key(p) == Key(q) <==> DecimalValue(m) == DecimalValue(m')
  {
    KeyAround(p, pre, m, r);
    KeyAround(q, pre, m', r);
    NumberDecides(Tokens(SplitDigitRuns(pre)), Tokens(SplitDigitRuns(r)), DecimalValue(m), DecimalValue(m'));
  }

  /** Two paths with equal keys stay in the order they were given. */
  lemma TiesKeepOrder(p: string, q: string)
    requires Key(p) == Key(q)
    ensures SortPaths([p, q]) == [p, q]
  {
    NaturalKeyOrder();
    assert [p, q][..1] == [p] && [p][..0] == [];
    assert StableSort.Sort([p], Key, KeyLess) == StableSort.Insert(p, [], Key, KeyLess) == [p];
    assert SortPaths([p, q]) == StableSort.Insert(q, [p], Key, KeyLess);
    assert !KeyLess(Key(q), Key(p));
    assert StableSort.Insert(q, [p], Key, KeyLess) == [p] + StableSort.Insert(q, [], Key, KeyLess);
  }

  /** A digit run written with a leading zero (`file07`) has the same key
      as without it (`file7`): the zero is lost in `int`. So the two keep
      the order in which they were selected. */
  lemma LeadingZeroTie(p: string, q: string, pre: string, m: string, r: string)
    requires Paths.Basename(p) == pre + ("0" + m) + r && Paths.Basename(q) == pre + m + r
    requires pre == [] || !IsDigit(pre[|pre| - 1])
    requires r == [] || !IsDigit(r[0])
    requires m != [] && AllDigits(m)
    ensures Key(p) == Key(q)
    ensures SortPaths([p, q]) == [p, q] && SortPaths([q, p]) == [q, p]
  {
    LeadingZero(m);
    NumbersCompareByValue(p, q, pre, "0" + m, m, r);
    TiesKeepOrder(p, q);
    TiesKeepOrder(q, p);
  }

  /** `file07` and `file7` keep their selection order, either way round. */
  lemma LeadingZeroExample(p: string, q: string)
    requires p == "file07" && q == "file7"
    ensures Key(p) == Key(q)
    ensures SortPaths([p, q]) == [p, q] && SortPaths([q, p]) == [q, p]
  {
    var pre, m, r := FileNames(p, q);
    Paths.BasenameOfName(p);
    Paths.BasenameOfName(q);
    LeadingZeroTie(p, q, pre, m, r);
  }

  lemma FileNames(p: string, q: string) returns (pre: string, m: string, r: string)
    requires p == "file07" && q == "file7"
    ensures p == pre + ("0" + m) + r && q == pre + m + r
    ensures Paths.SEP !in p && Paths.SEP !in q
    ensures pre == [] || !IsDigit(pre[|pre| - 1])
    ensures r == [] || !IsDigit(r[0])
    ensures m != [] && AllDigits(m)
  {
    pre, m, r := "file", "7", "";
    assert p == pre + ("0" + m) + r && q == pre + m + r;
  }

  /** The key looks only at the base name: the same file name in two
      directories gives equal keys, so the two keep their selection order. */
  lemma SameNameKeepsOrder(p: string, q: string)
    requires Paths.Basename(p) == Paths.Basename(q)
    ensures SortPaths([p, q]) == [p, q]
  {
    TiesKeepOrder(p, q);
  }

  /** `track1, track2, track10, track9` sort to `track1, track2, track9,
      track10`; shown for any text around the track number that makes it a
      digit run of its own. */
  lemma TrackExample(pre: string, r: string, t1: string, t2: string, t9: string, t10: string)
    requires pre == [] || !IsDigit(pre[|pre| - 1])
    requires r == [] || !IsDigit(r[0])
    requires Paths.SEP !in pre + r
    requires t1 == pre + "1" + r && t2 == pre + "2" + r
    requires t9 == pre + "9" + r && t10 == pre + "10" + r
    ensures SortPaths([t1, t2, t10, t9]) == [t1, t2, t9, t10]
  {
    TrackKeys(pre, r, t1, t2, t9, t10);
    SortIncreasing(t1, t2, t9, t10);
  }

  /** The files of the example, with a `.wav` extension. */
  lemma TrackFiles(t1: string, t2: string, t9: string, t10: string)
    requires t1 == "track1.wav" && t2 == "track2.wav" && t9 == "track9.wav" && t10 == "track10.wav"
    ensures SortPaths([t1, t2, t10, t9]) == [t1, t2, t9, t10]
  {
    var pre, r := "track", ".wav";
    assert Paths.SEP !in pre + r;
    assert t1 == pre + "1" + r && t2 == pre + "2" + r;
    assert t9 == pre + "9" + r && t10 == pre + "10" + r;
    TrackExample(pre, r, t1, t2, t9, t10);
  }

  lemma SortIncreasing(w: string, x: string, y: string, z: string)
    requires KeyLess(Key(w), Key(x)) && KeyLess(Key(x), Key(y)) && KeyLess(Key(y), Key(z))
    ensures SortPaths([w, x, z, y]) == [w, x, y, z]
  {
    NaturalKeyOrder();
    SortFour(w, x, y, z, Key, KeyLess);
  }

  /** Compared as plain strings, character by character, `track10...`
      would come before `track9...`: the opposite of the natural order. */
  lemma CharacterOrder(a: string, u: string, v: string, t10: string, t9: string)
    requires t10 == a + "10" + u && t9 == a + "9" + v
    ensures Lex(t10, t9, CompareChars) == Lt
  {
    CharsAreCompared();
    assert t10[..|a|] == a == t9[..|a|];
    assert t10[|a|] == '1' && t9[|a|] == '9';
    LexFirstDifference(t10, t9, |a|, CompareChars);
  }

  lemma TrackKeys(pre: string, r: string, t1: string, t2: string, t9: string, t10: string)
    requires pre == [] || !IsDigit(pre[|pre| - 1])
    requires r == [] || !IsDigit(r[0])
    requires Paths.SEP !in pre + r
    requires t1 == pre + "1" + r && t2 == pre + "2" + r
    requires t9 == pre + "9" + r && t10 == pre + "10" + r
    ensures KeyLess(Key(t1), Key(t2)) && KeyLess(Key(t2), Key(t9)) && KeyLess(Key(t9), Key(t10))
  {
    TrackNumbers();
    TrackNames(pre, r, t1, t2, "1", "2");
    TrackNames(pre, r, t2, t9, "2", "9");
    TrackNames(pre, r, t9, t10, "9", "10");
  }

  lemma TrackNumbers()
    ensures AllDigits("1") && AllDigits("2") && AllDigits("9") && AllDigits("10")
    ensures DecimalValue("1") < DecimalValue("2") < DecimalValue("9") < DecimalValue("10")
  {
    assert DecimalValue("1") == 1 && DecimalValue("2") == 2;
    assert DecimalValue("9") == 9 && DecimalValue("10") == 10;
  }

  /** Four elements whose keys increase in the order `w, x, y, z`, given
      with the last two exchanged, come out as `w, x, y, z`. */
  lemma SortFour<T(!new), K(!new)>(w: T, x: T, y: T, z: T, key: T -> K, less: (K, K) -> bool)
    requires StableSort.IsKeyOrder(key, less)
    requires less(key(w), key(x)) && less(key(x), key(y)) && less(key(y), key(z))
    ensures StableSort.Sort([w, x, z, y], key, less) == [w, x, y, z]
  {
    var r, s := [w, x, y, z], [w, x, z, y];
    assert less(key(w), key(y)) && less(key(w), key(z)) && less(key(x), key(z));
    forall i, j | 0 <= i < j < |r| ensures !less(key(r[j]), key(r[i])) {
      assert less(key(r[i]), key(r[j]));
    }
    assert key(y) != key(z);
    forall k ensures StableSort.WithKey(r, k, key) == StableSort.WithKey(s, k, key) {
      WithKeySwap([w, x], y, z, k, key);
      assert [w, x] + [y, z] == r && [w, x] + [z, y] == s;
    }
    StableSort.SortUnique(s, r, key, less);
  }

  /** `<pre><m><r>` against `<pre><m'><r>` for plain file names. */
  lemma TrackNames(pre: string, r: string, p: string, q: string, m: string, m': string)
    requires pre == [] || !IsDigit(pre[|pre| - 1])
    requires r == [] || !IsDigit(r[0])
    requires Paths.SEP !in pre + r
    requires m != [] && AllDigits(m) && m' != [] && AllDigits(m')
    requires p == pre + m + r && q == pre + m' + r
    ensures KeyLess(Key(p), Key(q)) <==> DecimalValue(m) < DecimalValue(m')
  {
    NoSeparator(pre, r, m);
    NoSeparator(pre, r, m');
    Paths.BasenameOfName(p);
    Paths.BasenameOfName(q);
    NumbersCompareByValue(p, q, pre, m, m', r);
  }

  lemma NoSeparator(pre: string, r: string, m: string)
    requires Paths.SEP !in pre + r && AllDigits(m)
    ensures Paths.SEP !in pre + m + r
  {
    var s := pre + m + r;
    forall i | 0 <= i < |s| ensures s[i] != Paths.SEP {
      if i < |pre| {
        assert s[i] == (pre + r)[i];
      } else if i < |pre| + |m| {
        assert s[i] == m[i - |pre|];
      } else {
        assert s[i] == (pre + r)[i - |m|];
      }
    }
  }

  /** Exchanging two neighbours with different keys changes no key's
      elements or their order. */
  lemma WithKeySwap<T, K>(s: seq<T>, x: T, y: T, k: K, key: T -> K)
    requires key(x) != key(y)
    ensures StableSort.WithKey(s + [x, y], k, key) == StableSort.WithKey(s + [y, x], k, key)
  {
    StableSort.WithKeyAppend(s, [x, y], k, key);
    StableSort.WithKeyAppend(s, [y, x], k, key);
    StableSort.WithKeyAppend([x], [y], k, key);
    StableSort.WithKeyAppend([y], [x], k, key);
    assert [x] + [y] == [x, y] && [y] + [x] == [y, x];
  }
}
