/**
 * The natural-sort key of a selected path (smerge.py, `natural_keys` and
 * `atoi`): the base name is split by `re.split(r'(\d+)', ...)` into
 * alternating text and digit runs, and every run made only of digits
 * becomes an integer.  Digits are the ASCII digits.
 */
module NaturalKey {
  import opened Lexicographic
  import Paths

  /** One element of a key: a text run kept as a string, or a digit run as its value. */
  datatype Token = Str(text: string) | Num(value: nat)

  /** A digit of the model: one of the ten ASCII digits. */
  predicate IsDigit(c: char) {
    c in {'0', '1', '2', '3', '4', '5', '6', '7', '8', '9'}
  }

  predicate NoDigits(s: string) {
    forall i :: 0 <= i < |s| ==> !IsDigit(s[i])
  }

  predicate AllDigits(s: string) {
    forall i :: 0 <= i < |s| ==> IsDigit(s[i])
  }

  /** Length of the longest prefix of `s` holding no digit. */
  function TextLength(s: string): (n: nat)
    ensures n <= |s| && NoDigits(s[..n])
    ensures n < |s| ==> IsDigit(s[n])
    decreases |s|
  {
    if s == [] || IsDigit(s[0]) then 0
    else
      var n := 1 + TextLength(s[1..]);
      assert forall i :: 1 <= i < n ==> s[..n][i] == s[1..][..n - 1][i - 1];
      n
  }

  /** Length of the longest prefix of `s` made of digits. */
  function DigitLength(s: string): (n: nat)
    ensures n <= |s| && AllDigits(s[..n])
    ensures n < |s| ==> !IsDigit(s[n])
    decreases |s|
  {
    if s == [] || !IsDigit(s[0]) then 0
    else
      var n := 1 + DigitLength(s[1..]);
      assert forall i :: 1 <= i < n ==> s[..n][i] == s[1..][..n - 1][i - 1];
      n
  }

  /** `re.split(r'(\d+)', s)`: the text before each maximal digit run, the
      run itself (the pattern's capturing group), and finally the text
      after the last run. */
  function SplitDigitRuns(s: string): (parts: seq<string>)
    decreases |s|
  {
    var t := TextLength(s);
    if t == |s| then [s]
    else
      var rest := s[t..];
      var d := DigitLength(rest);
      assert d > 0 by { assert IsDigit(rest[0]); }
      [s[..t], rest[..d]] + SplitDigitRuns(rest[d..])
  }

  /** `''.join(parts)`. */
  function Concat(parts: seq<string>): string {
    if parts == [] then [] else parts[0] + Concat(parts[1..])
  }

  /** The shape of what `re.split(r'(\d+)', s)` returns: an odd number of
      pieces; pieces at even positions hold no digit and are empty only at
      either end; pieces at odd positions are non-empty digit runs. */
  ghost predicate SplitLayout(parts: seq<string>) {
    && |parts| % 2 == 1
    && (forall i :: 0 <= i < |parts| && i % 2 == 0 ==> NoDigits(parts[i]))
    && (forall i :: 0 <= i < |parts| && i % 2 == 1 ==> parts[i] != [] && AllDigits(parts[i]))
    && (forall i :: 0 < i < |parts| - 1 && i % 2 == 0 ==> parts[i] != [])
  }

  /** The split has the layout above and loses no character. */
  lemma {:induction false} SplitDigitRunsLayout(s: string)
    ensures SplitLayout(SplitDigitRuns(s))
    ensures Concat(SplitDigitRuns(s)) == s
    decreases |s|
  {
    var t := TextLength(s);
    if t < |s| {
      var d := DigitLength(s[t..]);
      DigitRunAt(s, t, d);
      var u := s[t + d..];
      var rest := SplitDigitRuns(u);
      SplitDigitRunsLayout(u);
      RestStartsWithText(u, rest);
      SplitOnce(s, t, d);
      LayoutCons(s[..t], s[t..t + d], rest);
      ConcatCons(s[..t], s[t..t + d], rest);
    } else {
      SplitNone(s);
    }
  }

  /** A string without digits is one piece. */
  lemma SplitNone(s: string)
    requires TextLength(s) == |s|
    ensures NoDigits(s) && SplitDigitRuns(s) == [s]
  {
    assert s[..|s|] == s;
  }

  /** One step of the split: the text before the first digit run, the run,
      and the rest, which does not start with a digit. */
  lemma DigitRunAt(s: string, t: nat, d: nat)
    requires t < |s| && IsDigit(s[t]) && d == DigitLength(s[t..])
    ensures 0 < d && t + d <= |s|
    ensures s[t..t + d] != [] && AllDigits(s[t..t + d])
    ensures s[t + d..] == [] || !IsDigit(s[t + d..][0])
    ensures s == s[..t] + s[t..t + d] + s[t + d..]
  {
    assert s[t..][0] == s[t];
    assert s[t..t + d] == s[t..][..d];
    var u := s[t + d..];
    assert u == [] || !IsDigit(u[0]) by {
      if u != [] { assert u[0] == s[t..][d]; }
    }
  }

  /** The pieces of a string that does not start with a digit begin with a
      non-empty text piece, unless there is only one piece. */
  lemma RestStartsWithText(u: string, rest: seq<string>)
    requires SplitLayout(rest) && Concat(rest) == u
    requires u == [] || !IsDigit(u[0])
    ensures rest[0] == [] ==> |rest| == 1
  {
    if |rest| > 1 {
      ConcatCons(rest[0], rest[1], rest[2..]);
      assert rest == [rest[0], rest[1]] + rest[2..];
    }
  }

  lemma ConcatCons(a: string, b: string, rest: seq<string>)
    ensures Concat([a, b] + rest) == a + b + Concat(rest)
  {
    var parts := [a, b] + rest;
    assert parts[1..][1..] == rest;
    calc {
      Concat(parts);
      a + Concat(parts[1..]);
      a + (b + Concat(rest));
    }
  }

  lemma LayoutCons(a: string, b: string, rest: seq<string>)
    requires NoDigits(a) && b != [] && AllDigits(b)
    requires SplitLayout(rest) && (rest[0] == [] ==> |rest| == 1)
    ensures SplitLayout([a, b] + rest)
  {
    var parts := [a, b] + rest;
    assert forall i :: 2 <= i < |parts| ==> parts[i] == rest[i - 2];
  }

  lemma LayoutTail(parts: seq<string>)
    requires SplitLayout(parts) && |parts| > 1
    ensures parts == [parts[0], parts[1]] + parts[2..]
    ensures NoDigits(parts[0]) && parts[1] != [] && AllDigits(parts[1])
    ensures SplitLayout(parts[2..])
    ensures parts[2] == [] ==> |parts| == 3
  {
    var rest := parts[2..];
    assert forall i :: 0 <= i < |rest| ==> rest[i] == parts[i + 2];
  }

  /** Conversely, a sequence of pieces with that layout that joins up to
      `s` is exactly the split of `s`: the layout characterises the split. */
  lemma {:induction false} SplitDigitRunsUnique(s: string, parts: seq<string>)
    requires SplitLayout(parts) && Concat(parts) == s
    ensures parts == SplitDigitRuns(s)
    decreases |parts|
  {
    if |parts| == 1 {
      assert s == parts[0] + Concat(parts[1..]) == parts[0];
      TextLengthAt(s, []);
      assert s + [] == s;
    } else {
      LayoutTail(parts);
      var rest := parts[2..];
      var w := Concat(rest);
      ConcatCons(parts[0], parts[1], rest);
      assert s == parts[0] + (parts[1] + w);
      TextLengthAt(parts[0], parts[1] + w);
      var t := |parts[0]|;
      assert s[t..] == parts[1] + w;
      assert w == [] || !IsDigit(w[0]) by {
        assert w == rest[0] + Concat(rest[1..]);
        if rest[0] == [] {
          assert Concat(rest[1..]) == [];
        } else {
          assert w[0] == rest[0][0];
        }
      }
      DigitLengthAt(parts[1], w);
      var d := |parts[1]|;
      assert s[t..t + d] == parts[1];
      assert s[t + d..] == w;
      SplitDigitRunsUnique(w, rest);
    }
  }

  lemma {:induction false} TextLengthAt(a: string, u: string)
    requires NoDigits(a)
    requires u == [] || IsDigit(u[0])
    ensures TextLength(a + u) == |a|
    decreases |a|
  {
    if a == [] {
      assert a + u == u;
    } else {
      assert (a + u)[1..] == a[1..] + u;
      TextLengthAt(a[1..], u);
    }
  }

  lemma {:induction false} DigitLengthAt(a: string, u: string)
    requires AllDigits(a)
    requires u == [] || !IsDigit(u[0])
    ensures DigitLength(a + u) == |a|
    decreases |a|
  {
    if a == [] {
      assert a + u == u;
    } else {
      assert (a + u)[1..] == a[1..] + u;
      DigitLengthAt(a[1..], u);
    }
  }

  /** Python's `int(text)` on a string of ASCII digits (leading zeros allowed). */
  function DecimalValue(s: string): nat
    requires AllDigits(s)
    decreases |s|
  {
    if s == [] then 0
    else DecimalValue(s[..|s| - 1]) * 10 + (s[|s| - 1] as int - '0' as int)
  }

  /** Leading zeros do not change the value: `int("07") == int("7")`. */
  lemma {:induction false} LeadingZero(s: string)
    requires AllDigits(s)
    ensures AllDigits("0" + s) && DecimalValue("0" + s) == DecimalValue(s)
    decreases |s|
  {
    var z := "0" + s;
    if s != [] {
      assert z[..|z| - 1] == "0" + s[..|s| - 1];
      assert z[|z| - 1] == s[|s| - 1];
      LeadingZero(s[..|s| - 1]);
    }
  }

  /** `atoi`: `int(text) if text.isdigit() else text`; the empty string is
      not `isdigit()`. */
  function Atoi(text: string): Token {
    if text != [] && AllDigits(text) then Num(DecimalValue(text)) else Str(text)
  }

  /** A text run stays a string. */
  lemma AtoiText(s: string)
    requires NoDigits(s)
    ensures Atoi(s) == Str(s)
  {
    if s != [] {
      assert !IsDigit(s[0]);
    }
  }

  /** `natural_keys(path)`: the token list of the path's base name. */
  function Key(path: string): seq<Token> {
    Tokens(SplitDigitRuns(Paths.Basename(path)))
  }

  /** `[atoi(c) for c in parts]`. */
  function Tokens(parts: seq<string>): (k: seq<Token>)
    ensures |k| == |parts|
    ensures forall i :: 0 <= i < |parts| ==> k[i] == Atoi(parts[i])
  {
    if parts == [] then [] else [Atoi(parts[0])] + Tokens(parts[1..])
  }

  /** Keys alternate text, number, text, ..., text. */
  ghost predicate Alternating(k: seq<Token>) {
    && |k| % 2 == 1
    && forall i :: 0 <= i < |k| ==> (k[i].Str? <==> i % 2 == 0)
  }

  /** A key is an odd-length list: position `2j` holds the j-th maximal text
      run of the base name as a string, position `2j + 1` the value of the
      j-th maximal digit run. */
  lemma KeyLayout(path: string)
    ensures var parts := SplitDigitRuns(Paths.Basename(path));
      var k := Key(path);
      && SplitLayout(parts)
      && Alternating(k)
      && |k| == |parts|
      && (forall i :: 0 <= i < |k| && i % 2 == 0 ==> k[i] == Str(parts[i]))
      && (forall i :: 0 <= i < |k| && i % 2 == 1 ==> k[i] == Num(DecimalValue(parts[i])))
  {
    var name := Paths.Basename(path);
    var parts := SplitDigitRuns(name);
    SplitDigitRunsLayout(name);
    assert Key(path) == Tokens(parts);
    TokensOfLayout(parts);
  }

  /** The tokens of pieces laid out as `re.split` returns them: strings at
      even positions, the runs' values at odd positions. */
  lemma TokensOfLayout(parts: seq<string>)
    requires SplitLayout(parts)
    ensures var k := Tokens(parts);
      && Alternating(k)
      && (forall i :: 0 <= i < |k| && i % 2 == 0 ==> k[i] == Str(parts[i]))
      && (forall i :: 0 <= i < |k| && i % 2 == 1 ==> k[i] == Num(DecimalValue(parts[i])))
  {
    forall i | 0 <= i < |parts| && i % 2 == 0 ensures Atoi(parts[i]) == Str(parts[i]) {
      AtoiText(parts[i]);
    }
  }

  /** Python's `<` between two tokens; a `str` against an `int` raises. */
  function CompareTokens(x: Token, y: Token): Cmp {
    match (x, y)
    case (Str(s), Str(t)) => Lex(s, t, CompareChars)
    case (Num(m), Num(n)) => if m < n then Lt else if m == n then Eq else Gt
    case _ => Incomparable
  }

  lemma TokensAreCompared()
    ensures IsComparison(CompareTokens)
  {
    CharsAreCompared();
    forall s: string, t: string
      ensures (Lex(s, t, CompareChars) == Eq <==> s == t)
      ensures Lex(t, s, CompareChars) == Flip(Lex(s, t, CompareChars))
    {
      LexEq(s, t, CompareChars);
      LexFlip(s, t, CompareChars);
    }
    forall s: string, t: string, u: string
      | Lex(s, t, CompareChars) == Lt && Lex(t, u, CompareChars) == Lt
      ensures Lex(s, u, CompareChars) == Lt
    {
      LexTrans(s, t, u, CompareChars);
    }
  }

  /** Python's comparison of two key lists. */
  function CompareKeys(a: seq<Token>, b: seq<Token>): Cmp {
    Lex(a, b, CompareTokens)
  }

  /** Keys of any two paths can be compared: because both alternate from a
      text run, equal positions hold tokens of the same kind, so sorting
      never raises `TypeError`. */
  lemma KeysComparable(p: string, q: string)
    ensures CompareKeys(Key(p), Key(q)) != Incomparable
  {
    KeyLayout(p);
    KeyLayout(q);
    AlternatingComparable(Key(p), Key(q));
  }

  /** Two alternating token lists hold tokens of the same kind wherever
      both have one, so they compare. */
  lemma AlternatingComparable(a: seq<Token>, b: seq<Token>)
    requires Alternating(a) && Alternating(b)
    ensures Lex(a, b, CompareTokens) != Incomparable
  {
    forall i | 0 <= i < |a| && i < |b|
      ensures CompareTokens(a[i], b[i]) != Incomparable
    {
      if a[i].Str? {
        assert b[i].Str?;
        LexDefined(a[i].text, b[i].text, CompareChars);
      } else {
        assert a[i].Num? && b[i].Num?;
      }
    }
    LexDefined(a, b, CompareTokens);
  }

  /** The key of a path is determined by any split of its base name that
      has the layout of `re.split`'s result. */
  lemma KeyOfParts(path: string, parts: seq<string>)
    requires SplitLayout(parts) && Concat(parts) == Paths.Basename(path)
    ensures |Key(path)| == |parts|
    ensures forall i :: 0 <= i < |parts| ==> Key(path)[i] == Atoi(parts[i])
  {
    SplitDigitRunsUnique(Paths.Basename(path), parts);
  }

  /** A text run with no digit, then a digit run, then a rest that does
      not start with a digit: the split takes the two runs off the front. */
  lemma SplitStepAt(a: string, b: string, u: string)
    requires NoDigits(a) && b != [] && AllDigits(b)
    requires u == [] || !IsDigit(u[0])
    ensures SplitDigitRuns(a + b + u) == [a, b] + SplitDigitRuns(u)
  {
    var s := a + b + u;
    TextThenDigits(a, b, u);
    DigitsThenText(a, b, u);
    SplitOnce(s, |a|, |b|);
    assert s[..|a|] == a && s[|a|..|a| + |b|] == b && s[|a| + |b|..] == u;
  }

  /** In `a + b + u`, the text before the first digit is `a`. */
  lemma TextThenDigits(a: string, b: string, u: string)
    requires NoDigits(a) && b != [] && AllDigits(b)
    ensures TextLength(a + b + u) == |a| < |a + b + u|
  {
    var w := b + u;
    assert w[0] == b[0];
    TextLengthAt(a, w);
    assert a + b + u == a + w;
  }

  /** In `a + b + u`, the digit run right after `a` is `b`. */
  lemma DigitsThenText(a: string, b: string, u: string)
    requires AllDigits(b) && (u == [] || !IsDigit(u[0]))
    ensures DigitLength((a + b + u)[|a|..]) == |b|
  {
    assert (a + b + u)[|a|..] == b + u;
    DigitLengthAt(b, u);
  }

  /** One step of `SplitDigitRuns`, with the two lengths it computes given. */
  lemma SplitOnce(s: string, t: nat, d: nat)
    requires t == TextLength(s) < |s| && d == DigitLength(s[t..])
    ensures t + d <= |s|
    ensures SplitDigitRuns(s) == [s[..t], s[t..t + d]] + SplitDigitRuns(s[t + d..])
  {
    SplitUnfold(s, t, d);
    SliceParts(s, t, d);
  }

  /** The same step, as the definition slices. */
  lemma SplitUnfold(s: string, t: nat, d: nat)
    requires t == TextLength(s) < |s| && d == DigitLength(s[t..])
    ensures SplitDigitRuns(s) == [s[..t], s[t..][..d]] + SplitDigitRuns(s[t..][d..])
  {
  }

  lemma SliceParts<T>(s: seq<T>, t: nat, d: nat)
    requires t <= |s| && d <= |s| - t
    ensures s[t..][..d] == s[t..t + d] && s[t..][d..] == s[t + d..]
  {
  }

  /** A digit run between a text that does not end in a digit and a text
      that does not start with one is a piece of its own: the split of the
      whole is the split of the text before, the run, and the split of the
      text after. */
  lemma {:induction false} SplitAround(pre: string, m: string, r: string)
    requires pre == [] || !IsDigit(pre[|pre| - 1])
    requires m != [] && AllDigits(m)
    requires r == [] || !IsDigit(r[0])
    ensures SplitDigitRuns(pre + m + r) == SplitDigitRuns(pre) + [m] + SplitDigitRuns(r)
    decreases |pre|
  {
    var t := TextLength(pre);
    if t == |pre| {
      SplitAroundText(pre, m, r);
    } else {
      var d := DigitLength(pre[t..]);
      DigitRunAt(pre, t, d);
      RunBeforeEnd(pre, t, d);
      SplitAround(pre[t + d..], m, r);
      SplitAroundRun(pre, t, d, m, r);
    }
  }

  /** `SplitAround` when the text before the run has no digit. */
  lemma SplitAroundText(pre: string, m: string, r: string)
    requires TextLength(pre) == |pre|
    requires m != [] && AllDigits(m)
    requires r == [] || !IsDigit(r[0])
    ensures SplitDigitRuns(pre + m + r) == SplitDigitRuns(pre) + [m] + SplitDigitRuns(r)
  {
    SplitNone(pre);
    SplitStepAt(pre, m, r);
  }

  /** `SplitAround` when the text before the run starts with text `pre[..t]`
      and a digit run `pre[t..t + d]`, given the equation for what follows. */
  lemma SplitAroundRun(pre: string, t: nat, d: nat, m: string, r: string)
    requires t == TextLength(pre) && t < |pre| && d == DigitLength(pre[t..])
    requires m != [] && AllDigits(m)
    requires r == [] || !IsDigit(r[0])
    requires pre[t + d..] != [] && !IsDigit(pre[t + d..][0])
    requires SplitDigitRuns(pre[t + d..] + m + r) == SplitDigitRuns(pre[t + d..]) + [m] + SplitDigitRuns(r)
    ensures SplitDigitRuns(pre + m + r) == SplitDigitRuns(pre) + [m] + SplitDigitRuns(r)
  {
    DigitRunAt(pre, t, d);
    SplitAroundStep(pre[..t], pre[t..t + d], pre[t + d..], m, r);
  }

  /** In a text that ends in a non-digit, a digit run is followed by more text. */
  lemma RunBeforeEnd(pre: string, t: nat, d: nat)
    requires pre != [] && !IsDigit(pre[|pre| - 1])
    requires 0 < d && t + d <= |pre| && AllDigits(pre[t..t + d])
    requires pre[t + d..] == [] || !IsDigit(pre[t + d..][0])
    ensures var rest := pre[t + d..];
      rest != [] && !IsDigit(rest[0]) && !IsDigit(rest[|rest| - 1])
  {
  }

  /** One step of `SplitAround`: a text run and a digit run in front of a
      rest for which the split already comes apart around `m`. */
  lemma SplitAroundStep(a: string, run: string, rest: string, m: string, r: string)
    requires NoDigits(a) && run != [] && AllDigits(run)
    requires rest != [] && !IsDigit(rest[0])
    requires SplitDigitRuns(rest + m + r) == SplitDigitRuns(rest) + [m] + SplitDigitRuns(r)
    ensures SplitDigitRuns(a + run + rest + m + r) == SplitDigitRuns(a + run + rest) + [m] + SplitDigitRuns(r)
  {
    var u := rest + m + r;
    assert u[0] == rest[0];
    Regroup(a + run, rest, m, r);
    SplitStepAt(a, run, rest);
    SplitStepAt(a, run, u);
    Regroup([a, run], SplitDigitRuns(rest), [m], SplitDigitRuns(r));
  }

  lemma Regroup<T>(w: seq<T>, x: seq<T>, y: seq<T>, z: seq<T>)
    ensures w + x + y + z == w + (x + y + z)
  {
  }

  /** `atoi` over two lists of pieces, one after the other. */
  lemma {:induction false} TokensAppend(x: seq<string>, y: seq<string>)
    ensures Tokens(x + y) == Tokens(x) + Tokens(y)
    decreases |x|
  {
    if x == [] {
      assert x + y == y;
    } else {
      assert (x + y)[1..] == x[1..] + y;
      TokensAppend(x[1..], y);
    }
  }

  /** The key of a base name made of a text that does not end in a digit, a
      digit run and a text that does not start with one: the tokens of the
      text before, the run's value, then the tokens of the text after. */
  lemma KeyAround(path: string, pre: string, m: string, r: string)
    requires Paths.Basename(path) == pre + m + r
    requires pre == [] || !IsDigit(pre[|pre| - 1])
    requires m != [] && AllDigits(m)
    requires r == [] || !IsDigit(r[0])
    ensures Key(path) == Tokens(SplitDigitRuns(pre)) + [Num(DecimalValue(m))] + Tokens(SplitDigitRuns(r))
  {
    var x, y := SplitDigitRuns(pre), SplitDigitRuns(r);
    SplitAround(pre, m, r);
    TokensAppend(x + [m], y);
    TokensAppend(x, [m]);
    assert Tokens([m]) == [Atoi(m)];
  }

  /** Two token lists that differ only in one number compare as those
      numbers do. */
  lemma NumberDecides(a: seq<Token>, b: seq<Token>, x: nat, y: nat)
    ensures var k, l := a + [Num(x)] + b, a + [Num(y)] + b;
      && (CompareKeys(k, l) == Lt <==> x < y)
      && (k == l <==> x == y)
  {
    var k, l := a + [Num(x)] + b, a + [Num(y)] + b;
    TokensAreCompared();
    var i := |a|;
    assert k[i] == Num(x) && l[i] == Num(y);
    if x == y {
      LexEq(k, l, CompareTokens);
    } else {
      assert k[..i] == a == l[..i];
      LexFirstDifference(k, l, i, CompareTokens);
    }
  }
}
