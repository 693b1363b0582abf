/**
  String primitives the dish form and the grocery export rely on:
  `String.prototype.trim`, `String.prototype.split` with a one-character
  separator, and `Array.prototype.join` with a one-character separator.
 */
module Strings {
  import opened Sequences

  /** The characters `trim` removes: the ECMAScript WhiteSpace and
      LineTerminator productions (tab, line tabulation, form feed, space,
      no-break space, byte order mark, the Unicode space separators, line
      feed, carriage return, line and paragraph separator). */
  const Whitespace: set<char> := {
    '\t', '\n', '\U{000B}', '\U{000C}', '\r', ' ', '\U{00A0}', '\U{1680}',
    '\U{2000}', '\U{2001}', '\U{2002}', '\U{2003}', '\U{2004}', '\U{2005}',
    '\U{2006}', '\U{2007}', '\U{2008}', '\U{2009}', '\U{200A}',
    '\U{2028}', '\U{2029}', '\U{202F}', '\U{205F}', '\U{3000}', '\U{FEFF}'
  }

  predicate IsWhitespace(c: char) {
    c in Whitespace
  }

  /** Every character of `s` at an index from `lo` up to `hi` is
      whitespace (indices outside `s` are ignored). */
  predicate WhitespaceBetween(s: string, lo: int, hi: int) {
    forall k :: lo <= k < hi && 0 <= k < |s| ==> IsWhitespace(s[k])
  }

  predicate AllWhitespace(s: string) {
    WhitespaceBetween(s, 0, |s|)
  }

  /** Neither end of `s` is a whitespace character. */
  predicate IsTrimmed(s: string) {
    s == [] || (!IsWhitespace(s[0]) && !IsWhitespace(s[|s| - 1]))
  }

  /** `r` is `s[i..j]`, and everything of `s` outside that slice is
      whitespace. */
  predicate IsCutOf(r: string, s: string, i: nat, j: nat) {
    && i <= j <= |s|
    && r == s[i..j]
    && WhitespaceBetween(s, 0, i)
    && WhitespaceBetween(s, j, |s|)
  }

  /** `r` is what is left of `s` once a whitespace prefix and a whitespace
      suffix are cut off, and `r` itself has no whitespace at either end. */
  ghost predicate IsTrimOf(r: string, s: string) {
    IsTrimmed(r) && exists i: nat, j: nat :: IsCutOf(r, s, i, j)
  }

  /** Drops leading whitespace. */
  function TrimStart(s: string): string
  {
    if |s| > 0 && IsWhitespace(s[0]) then TrimStart(s[1..]) else s
  }

  /** Drops trailing whitespace. */
  function TrimEnd(s: string): string
  {
    if |s| > 0 && IsWhitespace(s[|s| - 1]) then TrimEnd(s[..|s| - 1]) else s
  }

  /** The leading pass removes a whitespace prefix and stops at the first
      non-whitespace character. */
  lemma {:induction false} TrimStartSpec(s: string)
    ensures |TrimStart(s)| <= |s| && TrimStart(s) == s[|s| - |TrimStart(s)|..]
    ensures WhitespaceBetween(s, 0, |s| - |TrimStart(s)|)
    ensures TrimStart(s) == [] || !IsWhitespace(TrimStart(s)[0])
  {
    if |s| > 0 && IsWhitespace(s[0]) {
      TrimStartSpec(s[1..]);
    }
  }

  /** The trailing pass removes a whitespace suffix and stops at the last
      non-whitespace character. */
  lemma {:induction false} TrimEndSpec(s: string)
    ensures |TrimEnd(s)| <= |s| && TrimEnd(s) == s[..|TrimEnd(s)|]
    ensures WhitespaceBetween(s, |TrimEnd(s)|, |s|)
    ensures TrimEnd(s) == [] || !IsWhitespace(TrimEnd(s)[|TrimEnd(s)| - 1])
  {
    if |s| > 0 && IsWhitespace(s[|s| - 1]) {
      TrimEndSpec(s[..|s| - 1]);
    }
  }

  /** `String.prototype.trim`: both passes. */
  function Trim(s: string): string
  {
    TrimEnd(TrimStart(s))
  }

  /** The trim of `s` is `s` without its whitespace prefix and suffix, and
      it is empty exactly when `s` is blank. */
  lemma TrimSpec(s: string)
    ensures IsTrimOf(Trim(s), s)
    ensures Trim(s) == [] <==> AllWhitespace(s)
  {
    TrimStartSpec(s);
    TrimEndSpec(TrimStart(s));
    TwoPasses(s, TrimStart(s), TrimEnd(TrimStart(s)));
  }

  /** What a leading-whitespace pass `t` followed by a trailing-whitespace
      pass `r` leave of `s`. */
  lemma TwoPasses(s: string, t: string, r: string)
    requires |t| <= |s| && t == s[|s| - |t|..] && WhitespaceBetween(s, 0, |s| - |t|)
    requires t == [] || !IsWhitespace(t[0])
    requires |r| <= |t| && r == t[..|r|] && WhitespaceBetween(t, |r|, |t|)
    requires r == [] || !IsWhitespace(r[|r| - 1])
    ensures IsTrimOf(r, s)
    ensures r == [] <==> AllWhitespace(s)
  {
    var i := |s| - |t|;
    var j := i + |r|;
    forall k | j <= k < |s| ensures IsWhitespace(s[k]) {
      assert s[k] == t[k - i];
    }
    assert r == s[i..j];
    assert IsCutOf(r, s, i, j);
    assert t != [] ==> t[0] == s[i];
  }

  /** Cutting a whitespace prefix that ends before a non-whitespace
      character (or at the end). */
  lemma {:induction false} TrimStartAt(s: string, i: nat)
    requires i <= |s| && WhitespaceBetween(s, 0, i)
    requires i == |s| || !IsWhitespace(s[i])
    ensures TrimStart(s) == s[i..]
  {
    if i > 0 {
      TrimStartAt(s[1..], i - 1);
      assert s[1..][i - 1..] == s[i..];
    }
  }

  /** Cutting a whitespace suffix that starts after a non-whitespace
      character (or at the start). */
  lemma {:induction false} TrimEndAt(s: string, j: nat)
    requires j <= |s| && WhitespaceBetween(s, j, |s|)
    requires j == 0 || !IsWhitespace(s[j - 1])
    ensures TrimEnd(s) == s[..j]
    decreases |s|
  {
    if j < |s| {
      TrimEndAt(s[..|s| - 1], j);
      assert s[..|s| - 1][..j] == s[..j];
    }
  }

  /** A cut whose inside starts and ends with non-whitespace is what the
      two trimming passes leave. */
  lemma TrimStartEndOfCut(s: string, i: nat, j: nat)
    requires i < j <= |s| && WhitespaceBetween(s, 0, i) && WhitespaceBetween(s, j, |s|)
    requires !IsWhitespace(s[i]) && !IsWhitespace(s[j - 1])
    ensures TrimEnd(TrimStart(s)) == s[i..j]
  {
    SuffixCut(s, i, j);
    calc {
      TrimEnd(TrimStart(s));
      { TrimStartAt(s, i); }
      TrimEnd(s[i..]);
      { TrimEndAt(s[i..], j - i); }
      s[i..][..j - i];
    }
  }

  lemma SuffixCut(s: string, i: nat, j: nat)
    requires i < j <= |s| && WhitespaceBetween(s, j, |s|)
    requires !IsWhitespace(s[j - 1])
    ensures WhitespaceBetween(s[i..], j - i, |s| - i)
    ensures !IsWhitespace(s[i..][j - i - 1])
    ensures s[i..][..j - i] == s[i..j]
  {
    var t := s[i..];
    forall k | j - i <= k < |t| ensures IsWhitespace(t[k]) {
      assert t[k] == s[k + i];
    }
  }

  /** The trim of a string is unique: whatever meets the description
      `IsTrimOf` is exactly what `Trim` returns. */
  lemma TrimUnique(r: string, s: string)
    requires IsTrimOf(r, s)
    ensures r == Trim(s)
  {
    var i: nat, j: nat :| IsCutOf(r, s, i, j);
    if r != [] {
      assert s[i] == r[0] && s[j - 1] == r[|r| - 1];
      TrimStartEndOfCut(s, i, j);
    } else {
      TrimSpec(s);
    }
  }

  /** Trimming twice is trimming once. */
  lemma TrimIdempotent(s: string)
    ensures Trim(Trim(s)) == Trim(s)
  {
    var r := Trim(s);
    TrimSpec(s);
    assert r[0..|r|] == r && r[..0] == [] && r[|r|..] == [];
    assert IsCutOf(r, r, 0, |r|);
    TrimUnique(r, r);
  }

  /** Trimming only removes characters. */
  lemma TrimChars(s: string)
    ensures forall c :: c in Trim(s) ==> c in s
  {
    TrimStartSpec(s);
    TrimEndSpec(TrimStart(s));
    InfixChars(s, TrimStart(s), Trim(s));
  }

  lemma InfixChars(s: string, t: string, r: string)
    requires |t| <= |s| && t == s[|s| - |t|..]
    requires |r| <= |t| && r == t[..|r|]
    ensures forall c :: c in r ==> c in s
  {
    forall c | c in r ensures c in s {
      var k :| 0 <= k < |r| && r[k] == c;
      assert s[|s| - |t| + k] == c;
    }
  }

  /** `s.split(c)` for a one-character separator `c`: the pieces between
      separators, including empty ones; the empty string gives one empty
      piece. */
  function Split(s: string, c: char): (r: seq<string>)
    ensures |r| >= 1
    ensures forall k :: 0 <= k < |r| ==> c !in r[k]
    decreases |s|
  {
    if c !in s then [s]
    else
      var i := FirstIndex(s, c);
      [s[..i]] + Split(s[i + 1..], c)
  }

  /** `xs.join(c)` for a one-character separator `c`. */
  function Join(xs: seq<string>, c: char): (r: string)
    ensures xs == [] ==> r == []
  {
    if |xs| == 0 then []
    else if |xs| == 1 then xs[0]
    else xs[0] + [c] + Join(xs[1..], c)
  }

  /** A join ends with its last piece. */
  lemma {:induction false} JoinEndsWithLast(xs: seq<string>, c: char)
    requires xs != []
    ensures |Join(xs, c)| >= |xs[|xs| - 1]|
    ensures Join(xs, c)[|Join(xs, c)| - |xs[|xs| - 1]|..] == xs[|xs| - 1]
  {
    if |xs| > 1 {
      JoinEndsWithLast(xs[1..], c);
      var rest := Join(xs[1..], c);
      var s := xs[0] + [c] + rest;
      assert s[|s| - |rest|..] == rest;
    }
  }

  /** `join` on every list, separators included: one piece is itself, and
      each further piece follows one separator. */
  lemma {:induction false} JoinSnoc(xs: seq<string>, y: string, c: char)
    ensures Join([y], c) == y
    ensures xs != [] ==> Join(xs + [y], c) == Join(xs, c) + [c] + y
  {
    if |xs| > 1 {
      assert (xs + [y])[1..] == xs[1..] + [y];
      JoinSnoc(xs[1..], y, c);
    } else if |xs| == 1 {
      assert (xs + [y])[1..] == [y];
    }
  }

  /** A join is empty exactly when there is nothing to join or only one
      empty piece. */
  lemma JoinEmpty(xs: seq<string>, c: char)
    ensures Join(xs, c) == [] <==> xs == [] || xs == [[]]
  {
    if |xs| > 1 {
      assert Join(xs, c)[|xs[0]|] == c;
    }
  }

  /** Joining the pieces of a split with the same separator gives back the
      original string. */
  lemma {:induction false} JoinSplit(s: string, c: char)
    ensures Join(Split(s, c), c) == s
    decreases |s|
  {
    if c in s {
      var i := FirstIndex(s, c);
      var a, b := s[..i], s[i + 1..];
      SplitAtFirst(s, c, i);
      JoinCons(a, Split(b, c), c);
      JoinSplit(b, c);
      assert s == a + [c] + b;
    }
  }

  /** Splitting a join gives back the pieces, provided there is at least one
      and none contains the separator. */
  lemma {:induction false} SplitJoin(xs: seq<string>, c: char)
    requires |xs| >= 1
    requires forall k :: 0 <= k < |xs| ==> c !in xs[k]
    ensures Split(Join(xs, c), c) == xs
  {
    if |xs| > 1 {
      var x, rest := xs[0], xs[1..];
      var t := Join(rest, c);
      assert xs == [x] + rest;
      JoinCons(x, rest, c);
      var s := x + [c] + t;
      assert s[..|x|] == x && s[|x| + 1..] == t;
      SplitAtFirst(s, c, |x|);
      SplitJoin(rest, c);
    }
  }

  /** Joining a first piece in front of a non-empty list. */
  lemma JoinCons(x: string, rest: seq<string>, c: char)
    requires rest != []
    ensures Join([x] + rest, c) == x + [c] + Join(rest, c)
  {
    assert ([x] + rest)[1..] == rest;
  }

  /** Splitting at the first separator. */
  lemma SplitAtFirst(s: string, c: char, i: nat)
    requires i < |s| && s[i] == c && c !in s[..i]
    ensures Split(s, c) == [s[..i]] + Split(s[i + 1..], c)
  {
    FirstIndexAt(s, c, i);
  }

  /** A separator splits the input in two independently split halves. */
  lemma {:induction false} SplitConcat(a: string, b: string, c: char)
    ensures Split(a + [c] + b, c) == Split(a, c) + Split(b, c)
    decreases |a|
  {
    if c !in a {
      SplitConcatFirst(a, b, c);
    } else {
      var i := FirstIndex(a, c);
      var p, q, t := [a[..i]], Split(a[i + 1..], c), Split(b, c);
      calc {
        Split(a + [c] + b, c);
        { SplitConcatStep(a, b, c, i); }
        p + Split(a[i + 1..] + [c] + b, c);
        { SplitConcat(a[i + 1..], b, c); }
        p + (q + t);
        (p + q) + t;
        { SplitAtFirst(a, c, i); }
        Split(a, c) + t;
      }
    }
  }

  lemma SplitConcatFirst(a: string, b: string, c: char)
    requires c !in a
    ensures Split(a + [c] + b, c) == [a] + Split(b, c)
  {
    var s := a + [c] + b;
    assert s[..|a|] == a;
    assert s[|a| + 1..] == b;
    SplitAtFirst(s, c, |a|);
  }

  lemma SplitConcatStep(a: string, b: string, c: char, i: nat)
    requires i < |a| && a[i] == c && c !in a[..i]
    ensures Split(a + [c] + b, c) == [a[..i]] + Split(a[i + 1..] + [c] + b, c)
  {
    var s := a + [c] + b;
    assert s[..i] == a[..i];
    assert s[i + 1..] == a[i + 1..] + [c] + b;
    SplitAtFirst(s, c, i);
  }
}
