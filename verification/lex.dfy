/**
 * Three-way lexicographic comparison of sequences, the way Python's `<`
 * orders two `str` values (by code point) or two `list` values (element by
 * element, the shorter list first when one is a prefix of the other).
 */
module Lexicographic {

  /** Result of comparing two values. `Incomparable` stands for the
      `TypeError` Python raises when `<` meets a `str` and an `int`. */
  datatype Cmp = Lt | Eq | Gt | Incomparable

  /** The result of the comparison with its arguments swapped. */
  function Flip(c: Cmp): Cmp {
    match c
    case Lt => Gt
    case Gt => Lt
    case Eq => Eq
    case Incomparable => Incomparable
  }

  /** An element comparison that behaves like a (partial) order:
      `Eq` exactly on equal values, antisymmetric, and transitive on `Lt`. */
  ghost predicate IsComparison<T(!new)>(cmp: (T, T) -> Cmp) {
    && (forall x, y :: cmp(x, y) == Eq <==> x == y)
    && (forall x, y :: cmp(y, x) == Flip(cmp(x, y)))
    && (forall x, y, z :: cmp(x, y) == Lt && cmp(y, z) == Lt ==> cmp(x, z) == Lt)
  }

  /** Lexicographic comparison: the first position where the elements differ
      decides; when one sequence is exhausted first it is the smaller. */
  function Lex<T>(a: seq<T>, b: seq<T>, cmp: (T, T) -> Cmp): Cmp
    decreases |a|
  {
    if a == [] then (if b == [] then Eq else Lt)
    else if b == [] then Gt
    else
      match cmp(a[0], b[0])
      case Eq => Lex(a[1..], b[1..], cmp)
      case other => other
  }

  /** Comparing characters by code point, as Python compares one-character strings. */
  function CompareChars(x: char, y: char): Cmp {
    if x < y then Lt else if x == y then Eq else Gt
  }

  lemma CharsAreCompared()
    ensures IsComparison(CompareChars)
  {
  }

  /** Lexicographic comparison is `Eq` exactly on equal sequences. */
  lemma {:induction false} LexEq<T(!new)>(a: seq<T>, b: seq<T>, cmp: (T, T) -> Cmp)
    requires IsComparison(cmp)
    ensures Lex(a, b, cmp) == Eq <==> a == b
    decreases |a|
  {
    if a != [] && b != [] {
      LexEq(a[1..], b[1..], cmp);
      if cmp(a[0], b[0]) == Eq {
        assert a == [a[0]] + a[1..] && b == [b[0]] + b[1..];
      } else {
        assert a[0] != b[0];
      }
    }
  }

  /** Swapping the arguments flips the result. */
  lemma {:induction false} LexFlip<T(!new)>(a: seq<T>, b: seq<T>, cmp: (T, T) -> Cmp)
    requires IsComparison(cmp)
    ensures Lex(b, a, cmp) == Flip(Lex(a, b, cmp))
    decreases |a|
  {
    if a != [] && b != [] {
      LexFlip(a[1..], b[1..], cmp);
      assert cmp(b[0], a[0]) == Flip(cmp(a[0], b[0]));
    }
  }

  /** `Lt` is transitive. */
  lemma {:induction false} LexTrans<T(!new)>(a: seq<T>, b: seq<T>, c: seq<T>, cmp: (T, T) -> Cmp)
    requires IsComparison(cmp)
    requires Lex(a, b, cmp) == Lt && Lex(b, c, cmp) == Lt
    ensures Lex(a, c, cmp) == Lt
    decreases |a|
  {
    if a != [] {
      assert b != [] && c != [];
      var ab, bc := cmp(a[0], b[0]), cmp(b[0], c[0]);
      assert ab == Lt || ab == Eq;
      assert bc == Lt || bc == Eq;
      if ab == Eq && bc == Eq {
        LexTrans(a[1..], b[1..], c[1..], cmp);
      } else if ab == Eq {
        assert a[0] == b[0];
      } else if bc == Eq {
        assert b[0] == c[0];
      }
    }
  }

  /** The first position where the two sequences differ decides the comparison. */
  lemma {:induction false} LexFirstDifference<T(!new)>(a: seq<T>, b: seq<T>, k: nat, cmp: (T, T) -> Cmp)
    requires IsComparison(cmp)
    requires k < |a| && k < |b| && a[..k] == b[..k]
    requires cmp(a[k], b[k]) != Eq
    ensures Lex(a, b, cmp) == cmp(a[k], b[k])
    decreases k
  {
    if k > 0 {
      assert a[0] == a[..k][0] == b[..k][0] == b[0];
      assert a[1..][..k - 1] == a[..k][1..] == b[..k][1..] == b[1..][..k - 1];
      LexFirstDifference(a[1..], b[1..], k - 1, cmp);
    }
  }

  /** A proper prefix comes first ("shorter wins on exhaustion"). */
  lemma {:induction false} LexPrefix<T(!new)>(a: seq<T>, t: seq<T>, cmp: (T, T) -> Cmp)
    requires IsComparison(cmp)
    requires t != []
    ensures Lex(a, a + t, cmp) == Lt
    decreases |a|
  {
    if a != [] {
      assert (a + t)[0] == a[0] && (a + t)[1..] == a[1..] + t;
      LexPrefix(a[1..], t, cmp);
    }
  }

  /** When no aligned pair of elements is incomparable, neither are the sequences. */
  lemma {:induction false} LexDefined<T>(a: seq<T>, b: seq<T>, cmp: (T, T) -> Cmp)
    requires forall i :: 0 <= i < |a| && i < |b| ==> cmp(a[i], b[i]) != Incomparable
    ensures Lex(a, b, cmp) != Incomparable
    decreases |a|
  {
    if a != [] && b != [] {
      assert cmp(a[0], b[0]) != Incomparable;
      forall i | 0 <= i < |a[1..]| && i < |b[1..]|
        ensures cmp(a[1..][i], b[1..][i]) != Incomparable
      {
        assert a[1..][i] == a[i + 1] && b[1..][i] == b[i + 1];
      }
      LexDefined(a[1..], b[1..], cmp);
    }
  }
}
