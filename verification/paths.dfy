/**
 * The parts of Python's `os.path` (POSIX flavour, separator `/`, no
 * alternative separator) that the merger uses: `basename`, `dirname`,
 * `splitext` and two-argument `join`.
 */
module Paths {

  const SEP: char := '/'

  /** Python's `str.rfind(c)`: the last index holding `c`, or -1. */
  function LastIndexOf(s: string, c: char): (r: int)
    ensures -1 <= r < |s|
    ensures r >= 0 ==> s[r] == c
    ensures forall j :: r < j < |s| ==> s[j] != c
    decreases |s|
  {
    if s == [] then -1
    else if s[|s| - 1] == c then |s| - 1
    else LastIndexOf(s[..|s| - 1], c)
  }

  predicate AllSlashes(s: string) {
    forall i :: 0 <= i < |s| ==> s[i] == SEP
  }

  /** `str.rstrip('/')`. */
  function StripTrailingSlashes(s: string): (r: string)
    ensures |r| <= |s| && s[..|r|] == r && AllSlashes(s[|r|..])
    ensures r == [] || r[|r| - 1] != SEP
    decreases |s|
  {
    if s != [] && s[|s| - 1] == SEP then StripTrailingSlashes(s[..|s| - 1]) else s
  }

  /** `posixpath.basename`: everything after the last separator. */
  function Basename(p: string): (b: string)
    ensures SEP !in b
    ensures |b| <= |p| && p[|p| - |b|..] == b
    ensures |b| < |p| ==> p[|p| - |b| - 1] == SEP
  {
    p[LastIndexOf(p, SEP) + 1..]
  }

  /** A path without a separator is its own base name. */
  lemma BasenameOfName(p: string)
    requires SEP !in p
    ensures Basename(p) == p
  {
    assert LastIndexOf(p, SEP) == -1;
  }

  /** `posixpath.dirname`: everything before the last separator, with the
      trailing separators removed unless it consists of separators only. */
  function Dirname(p: string): (d: string)
    ensures |d| <= |p| && p[..|d|] == d
  {
    var head := p[..LastIndexOf(p, SEP) + 1];
    if head != [] && !AllSlashes(head) then StripTrailingSlashes(head) else head
  }

  /** The directory part, a run of separators and the base name make up
      the path. The run is dropped from the directory only when the
      directory ends in a name; and the directory is empty, the root
      (separators only), or ends in a name. */
  lemma DirnameBasename(p: string)
    ensures exists m :: |Dirname(p)| <= m <= |p| && p == Dirname(p) + p[|Dirname(p)|..m] + Basename(p)
                        && AllSlashes(p[|Dirname(p)|..m])
                        && (m > |Dirname(p)| ==> Dirname(p) != [] && Dirname(p)[|Dirname(p)| - 1] != SEP)
    ensures var d := Dirname(p); d == [] || AllSlashes(d) || d[|d| - 1] != SEP
  {
    var i := LastIndexOf(p, SEP) + 1;
    var head := p[..i];
    var d := Dirname(p);
    assert p == head + Basename(p);
    if head != [] && !AllSlashes(head) {
      assert head[..|d|] == d;
      assert p == d + p[|d|..i] + Basename(p);
      assert AllSlashes(p[|d|..i]) by { assert p[|d|..i] == head[|d|..]; }
    } else {
      assert p == d + p[|d|..i] + Basename(p);
    }
  }

  /** The directory part is empty exactly when the path has no separator. */
  lemma DirnameEmpty(p: string)
    ensures Dirname(p) == [] <==> SEP !in p
  {
    var i := LastIndexOf(p, SEP) + 1;
    if SEP in p {
      var j :| 0 <= j < |p| && p[j] == SEP;
      assert i > 0;
      assert p[..i] != [] && p[..i][i - 1] == SEP;
    }
  }

  /** Those properties determine the directory part: any split of a path
      into a directory, a run of separators and the base name that has
      them is the one `dirname` makes. */
  lemma DirnameUnique(p: string, d: string, s: string)
    requires p == d + s + Basename(p) && AllSlashes(s)
    requires s != [] ==> d != [] && d[|d| - 1] != SEP
    requires d == [] || AllSlashes(d) || d[|d| - 1] != SEP
    ensures d == Dirname(p)
  {
    var i := LastIndexOf(p, SEP) + 1;
    var head := p[..i];
    assert p == head + Basename(p);
    assert d + s == head;
    if head == [] {
    } else if AllSlashes(head) {
      assert AllSlashes(d) by { assert d == head[..|d|]; }
    } else if s == [] {
    } else {
      StripSlashes(d, s);
    }
  }

  /** Removing trailing separators from a name followed by separators
      gives back the name. */
  lemma {:induction false} StripSlashes(d: string, s: string)
    requires AllSlashes(s) && (d == [] || d[|d| - 1] != SEP)
    ensures StripTrailingSlashes(d + s) == d
    decreases |s|
  {
    if s == [] {
      assert d + s == d;
    } else {
      assert (d + s)[..|d + s| - 1] == d + s[..|s| - 1];
      StripSlashes(d, s[..|s| - 1]);
    }
  }

  /** `posixpath.splitext`: the extension runs from the last dot, provided
      that dot comes after the last separator and the base name has a
      character other than a dot before it (so `.bashrc` has none). */
  function Splitext(p: string): (string, string) {
    var sep := LastIndexOf(p, SEP);
    var dot := LastIndexOf(p, '.');
    if sep < dot && exists k :: sep < k < dot && p[k] != '.' then (p[..dot], p[dot..])
    else (p, "")
  }

  /** `os.path.splitext(p)[1]`. */
  function Extension(p: string): string {
    Splitext(p).1
  }

  /** `splitext` loses nothing, and an extension is one dot followed by
      neither dots nor separators. */
  lemma SplitextParts(p: string)
    ensures Splitext(p).0 + Splitext(p).1 == p
    ensures var e := Splitext(p).1;
      e == [] || (e[0] == '.' && '.' !in e[1..] && SEP !in e)
  {
    var sep := LastIndexOf(p, SEP);
    var dot := LastIndexOf(p, '.');
    var e := Splitext(p).1;
    if e != [] {
      assert e == p[dot..];
      forall j | 0 <= j < |e[1..]| ensures e[1..][j] != '.' {
        assert e[1..][j] == p[dot + 1 + j];
      }
    }
  }

  /** There is an extension exactly when the base name has a dot with some
      character other than a dot before it: leading dots, as in `.mp3`,
      belong to the root. */
  lemma ExtensionExists(p: string)
    ensures Extension(p) != [] <==>
      exists i, j :: LastIndexOf(p, SEP) < i < j < |p| && p[i] != '.' && p[j] == '.'
  {
    var sep := LastIndexOf(p, SEP);
    var dot := LastIndexOf(p, '.');
    if i, j :| sep < i < j < |p| && p[i] != '.' && p[j] == '.' {
      assert j <= dot;
      assert sep < i < dot && p[i] != '.';
    }
  }

  /** `posixpath.join(a, b)`: an absolute `b` replaces `a`; otherwise one
      separator is inserted unless `a` is empty or already ends in one. */
  function Join(a: string, b: string): (r: string)
    ensures |b| > 0 && b[0] == SEP ==> r == b
  {
    if |b| > 0 && b[0] == SEP then b
    else if a == [] || a[|a| - 1] == SEP then a + b
    else a + [SEP] + b
  }

  /** Joining a plain file name onto a directory obtained from `dirname`
      gives back that directory and that file name. */
  lemma JoinDirname(p: string, name: string)
    requires name != [] && SEP !in name
    ensures Basename(Join(Dirname(p), name)) == name
    ensures Dirname(Join(Dirname(p), name)) == Dirname(p)
  {
    DirnameBasename(p);
    var d := Dirname(p);
    if d == [] {
      JoinEmpty(name);
    } else if AllSlashes(d) {
      JoinRoot(d, name);
    } else {
      JoinDirectory(d, name);
    }
  }

  lemma JoinEmpty(name: string)
    requires SEP !in name
    ensures Basename(Join([], name)) == name && Dirname(Join([], name)) == []
  {
    assert Join([], name) == name;
    assert LastIndexOf(name, SEP) == -1;
    assert name[..0] == [];
  }

  lemma JoinRoot(d: string, name: string)
    requires d != [] && AllSlashes(d)
    requires name != [] && SEP !in name
    ensures Basename(Join(d, name)) == name && Dirname(Join(d, name)) == d
  {
    var r := Join(d, name);
    assert r == d + name;
    SuffixWithoutChar(d, name, SEP);
    assert r[..|d|] == d;
    assert r[|d|..] == name;
  }

  lemma JoinDirectory(d: string, name: string)
    requires d != [] && d[|d| - 1] != SEP
    requires name != [] && SEP !in name
    ensures Basename(Join(d, name)) == name && Dirname(Join(d, name)) == d
  {
    var r := Join(d, name);
    var head := d + [SEP];
    assert r == head + name;
    SuffixWithoutChar(head, name, SEP);
    assert r[..|d| + 1] == head;
    assert r[|d| + 1..] == name;
    assert !AllSlashes(head) by { assert head[|d| - 1] != SEP; }
    StripOne(d);
  }

  lemma {:induction false} SuffixWithoutChar(s: string, t: string, c: char)
    requires c !in t
    ensures LastIndexOf(s + t, c) == LastIndexOf(s, c)
    decreases |t|
  {
    if t != [] {
      var u := s + t;
      assert u[|u| - 1] == t[|t| - 1] != c;
      assert u[..|u| - 1] == s + t[..|t| - 1];
      SuffixWithoutChar(s, t[..|t| - 1], c);
    } else {
      assert s + t == s;
    }
  }

  lemma StripOne(d: string)
    requires d != [] && d[|d| - 1] != SEP
    ensures StripTrailingSlashes(d + [SEP]) == d
  {
    assert (d + [SEP])[..|d|] == d;
  }

  /** Joining `name + e` onto any directory, where `e` has the shape of an
      extension and `name` is a plain file name that is not only dots, gives
      a path whose extension is `e`. */
  lemma ExtensionOfJoin(d: string, name: string, e: string)
    requires SEP !in name && exists j :: 0 <= j < |name| && name[j] != '.'
    requires e != [] && e[0] == '.' && '.' !in e[1..] && SEP !in e
    ensures Extension(Join(d, name + e)) == e
  {
    var pre: string := if d == [] || d[|d| - 1] == SEP then d else d + [SEP];
    assert Join(d, name + e) == pre + name + e;
    ExtensionAfter(pre, name, e);
  }

  /** The extension of `pre + name + e`, for the same `name` and `e`. */
  lemma ExtensionAfter(pre: string, name: string, e: string)
    requires SEP !in name && exists j :: 0 <= j < |name| && name[j] != '.'
    requires e != [] && e[0] == '.' && '.' !in e[1..] && SEP !in e
    ensures Extension(pre + name + e) == e
  {
    var j :| 0 <= j < |name| && name[j] != '.';
    var r := pre + name + e;
    SuffixWithoutChar(pre, name, SEP);
    SuffixWithoutChar(pre + name, e, SEP);
    var dot := |pre| + |name|;
    assert r[dot..] == e;
    assert r[dot + 1..] == e[1..];
    assert r[|pre| + j] == name[j];
    SplitextAt(r, dot, |pre| + j);
  }

  /** `splitext` cuts at a dot that is the last one, when a non-dot
      character of the base name precedes it. */
  lemma SplitextAt(r: string, dot: nat, k: nat)
    requires dot < |r| && r[dot] == '.' && '.' !in r[dot + 1..]
    requires LastIndexOf(r, SEP) < k < dot && r[k] != '.'
    ensures Extension(r) == r[dot..]
  {
    LastDot(r, dot);
  }

  lemma LastDot(r: string, dot: nat)
    requires dot < |r| && r[dot] == '.' && '.' !in r[dot + 1..]
    ensures LastIndexOf(r, '.') == dot
  {
  }

}
