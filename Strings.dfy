/**
 * The ordinal string operations the loader (C#) and the converter (Python)
 * rely on: trimming, substring search, splitting on a separator with empty
 * pieces kept, joining, and left-to-right non-overlapping replacement.
 * Strings are sequences of characters; every comparison is ordinal.
 */
module Strings {

  /** C#'s char.IsWhiteSpace: the Unicode space, line and paragraph
      separators, the controls U+0009..U+000D and U+0085. */
  predicate IsWhiteSpace(c: char) {
    c == ' ' || ('\t' <= c <= '\r') || c == '\U{85}' || c == '\U{A0}' || c == '\U{1680}'
    || ('\U{2000}' <= c <= '\U{200A}') || c == '\U{2028}' || c == '\U{2029}'
    || c == '\U{202F}' || c == '\U{205F}' || c == '\U{3000}'
  }

  /** Drops the leading characters that satisfy isSpace. */
  function TrimStart(s: string, isSpace: char -> bool): string
    decreases |s|
  {
    if s != [] && isSpace(s[0]) then TrimStart(s[1..], isSpace) else s
  }

  /** TrimStart leaves a suffix, drops space characters only, and stops at
      the first character that is not one. */
  lemma {:induction false} TrimStartShape(s: string, isSpace: char -> bool)
    ensures var r := TrimStart(s, isSpace);
      |r| <= |s| && r == s[|s| - |r|..] &&
      (forall i :: 0 <= i < |s| - |r| ==> isSpace(s[i])) &&
      (r == [] || !isSpace(r[0]))
    decreases |s|
  {
    if s != [] && isSpace(s[0]) {
      TrimStartShape(s[1..], isSpace);
    }
  }

  /** Drops the trailing characters that satisfy isSpace. */
  function TrimEnd(s: string, isSpace: char -> bool): string
    decreases |s|
  {
    if s != [] && isSpace(s[|s| - 1]) then TrimEnd(s[..|s| - 1], isSpace) else s
  }

  /** TrimEnd leaves a prefix, drops space characters only, and stops at
      the last character that is not one. */
  lemma {:induction false} TrimEndShape(s: string, isSpace: char -> bool)
    ensures var r := TrimEnd(s, isSpace);
      |r| <= |s| && r == s[..|r|] &&
      (forall i :: |r| <= i < |s| ==> isSpace(s[i])) &&
      (r == [] || !isSpace(r[|r| - 1]))
    decreases |s|
  {
    if s != [] && isSpace(s[|s| - 1]) {
      TrimEndShape(s[..|s| - 1], isSpace);
    }
  }

  /** Drops the characters that satisfy isSpace from both ends. */
  function TrimWith(s: string, isSpace: char -> bool): (r: string)
  {
    TrimEnd(TrimStart(s, isSpace), isSpace)
  }

  /** A leading space character is trimmed away. */
  lemma TrimLeading(c: char, s: string, isSpace: char -> bool)
    requires isSpace(c)
    ensures TrimWith([c] + s, isSpace) == TrimWith(s, isSpace)
  {
    assert ([c] + s)[1..] == s;
  }

  /** C#'s String.Trim(). */
  function Trim(s: string): string
  {
    TrimWith(s, IsWhiteSpace)
  }

  /** The trimmed text is what remains between two runs of space characters:
      it neither starts nor ends with one. */
  lemma TrimWithShape(s: string, isSpace: char -> bool) returns (i: nat)
    ensures var r := TrimWith(s, isSpace);
      i + |r| <= |s| && s[i..i + |r|] == r
      && (forall j :: 0 <= j < i ==> isSpace(s[j]))
      && (forall j :: i + |r| <= j < |s| ==> isSpace(s[j]))
      && (r == [] || (!isSpace(r[0]) && !isSpace(r[|r| - 1])))
  {
    var t := TrimStart(s, isSpace);
    TrimStartShape(s, isSpace);
    i := |s| - |t|;
    TrimEndWithin(s, t, isSpace);
    TrimEndKeepsFirst(t, isSpace);
  }

  /** Trimming the end keeps the first character when anything is left. */
  lemma TrimEndKeepsFirst(t: string, isSpace: char -> bool)
    ensures var r := TrimEnd(t, isSpace); r != [] ==> r[0] == t[0] && !isSpace(r[|r| - 1])
  {
    TrimEndShape(t, isSpace);
  }

  /** Trimming the end of a suffix t of s keeps a slice of s and drops
      only space characters after it. */
  lemma TrimEndWithin(s: string, t: string, isSpace: char -> bool)
    requires |t| <= |s| && t == s[|s| - |t|..]
    ensures var r := TrimEnd(t, isSpace); var i := |s| - |t|;
      i + |r| <= |s| && s[i..i + |r|] == r && forall j :: i + |r| <= j < |s| ==> isSpace(s[j])
  {
    var i := |s| - |t|;
    var r := TrimEnd(t, isSpace);
    TrimEndShape(t, isSpace);
    assert s[i..i + |r|] == t[..|r|];
    forall j | i + |r| <= j < |s|
      ensures isSpace(s[j])
    {
      assert s[j] == t[j - i];
    }
  }

  /** Text that neither starts nor ends with a space character is left as it is. */
  lemma {:induction false} TrimWithStable(s: string, isSpace: char -> bool)
    requires s == [] || (!isSpace(s[0]) && !isSpace(s[|s| - 1]))
    ensures TrimWith(s, isSpace) == s
  {
    assert TrimStart(s, isSpace) == s;
    assert TrimEnd(s, isSpace) == s;
  }

  /** Text made only of space characters trims to the empty string. */
  lemma {:induction false} TrimWithAllSpace(s: string, isSpace: char -> bool)
    requires forall i :: 0 <= i < |s| ==> isSpace(s[i])
    ensures TrimWith(s, isSpace) == []
  {
    TrimStartShape(s, isSpace);
    assert TrimStart(s, isSpace) == [];
  }

  /** Trimming twice trims no more than trimming once. */
  lemma TrimWithIdempotent(s: string, isSpace: char -> bool)
    ensures TrimWith(TrimWith(s, isSpace), isSpace) == TrimWith(s, isSpace)
  {
    var r := TrimWith(s, isSpace);
    var _ := TrimWithShape(s, isSpace);
    TrimWithStable(r, isSpace);
  }

  predicate StartsWith(s: string, t: string) {
    |t| <= |s| && s[..|t|] == t
  }

  /** Ordinal String.Contains / Python's `in`. */
  predicate Contains(s: string, t: string)
    decreases |s|
  {
    StartsWith(s, t) || (s != [] && Contains(s[1..], t))
  }

  /** An occurrence found by Contains, as a position. */
  lemma {:induction false} ContainsWitness(s: string, t: string) returns (i: nat)
    requires Contains(s, t)
    ensures i <= |s| - |t| && s[i..i + |t|] == t
    decreases |s|
  {
    if StartsWith(s, t) {
      i := 0;
    } else {
      var j := ContainsWitness(s[1..], t);
      assert s[1..][j..j + |t|] == s[j + 1..j + 1 + |t|];
      i := j + 1;
    }
  }

  /** An occurrence at any position is found by Contains. */
  lemma {:induction false} ContainsFrom(s: string, t: string, i: nat)
    requires i <= |s| - |t| && s[i..i + |t|] == t
    ensures Contains(s, t)
    decreases i
  {
    if i > 0 {
      assert s[1..][i - 1..i - 1 + |t|] == s[i..i + |t|];
      ContainsFrom(s[1..], t, i - 1);
    }
  }

  /** For a one-character needle, Contains is plain membership. */
  lemma {:induction false} ContainsChar(s: string, c: char)
    ensures Contains(s, [c]) <==> c in s
    decreases |s|
  {
    if s != [] {
      ContainsChar(s[1..], c);
      assert s == [s[0]] + s[1..];
    }
  }

  /** C#'s String.Split(string) and Python's str.split(sep): the pieces
      between the occurrences of sep found scanning left to right without
      overlap; empty pieces are kept. */
  function Split(s: string, sep: string): (r: seq<string>)
    requires |sep| > 0
    ensures |r| >= 1
    ensures |r[0]| <= |s| && r[0] == s[..|r[0]|]
    ensures |r| == 1 ==> r[0] == s
    ensures !Contains(r[0], sep)
    decreases |s|
  {
    if |s| < |sep| then
      NotContainsShort(s, sep);
      [s]
    else if s[..|sep|] == sep then
      [[]] + Split(s[|sep|..], sep)
    else
      var t := Split(s[1..], sep);
      var head := [s[0]] + t[0];
      assert head[1..] == t[0];
      assert |sep| <= |head| ==> head[..|sep|] == s[..|sep|];
      [head] + t[1..]
  }

  lemma NotContainsShort(s: string, t: string)
    requires |s| < |t|
    ensures !Contains(s, t)
    decreases |s|
  {
    if s != [] {
      NotContainsShort(s[1..], t);
    }
  }

  /** Python's sep.join(xs) and C#'s String.Join(sep, xs). */
  function Join(xs: seq<string>, sep: string): string
  {
    if |xs| == 0 then [] else if |xs| == 1 then xs[0] else xs[0] + sep + Join(xs[1..], sep)
  }

  /** Joining the pieces of a split with the same separator gives the text back. */
  lemma {:induction false} SplitJoin(s: string, sep: string)
    requires |sep| > 0
    ensures Join(Split(s, sep), sep) == s
    decreases |s|
  {
    if |s| < |sep| {
    } else if s[..|sep|] == sep {
      var rest := Split(s[|sep|..], sep);
      assert Split(s, sep) == [[]] + rest;
      SplitJoin(s[|sep|..], sep);
      JoinConsEmpty(rest, sep);
      assert s == sep + s[|sep|..];
    } else {
      var t := Split(s[1..], sep);
      assert Split(s, sep) == [[s[0]] + t[0]] + t[1..];
      SplitJoin(s[1..], sep);
      JoinConsHead(s[0], t, sep);
      assert s == [s[0]] + s[1..];
    }
  }

  /** An empty first piece leaves only the separator before the rest. */
  lemma JoinConsEmpty(t: seq<string>, sep: string)
    requires |t| >= 1
    ensures Join([[]] + t, sep) == sep + Join(t, sep)
  {
    var u := [[]] + t;
    assert u[1..] == t;
  }

  /** Prefixing the first piece with a character prefixes the joined text. */
  lemma JoinConsHead(c: char, t: seq<string>, sep: string)
    requires |t| >= 1
    ensures Join([[c] + t[0]] + t[1..], sep) == [c] + Join(t, sep)
  {
    var u := [[c] + t[0]] + t[1..];
    assert u[1..] == t[1..];
  }

  /** No piece of a split holds the separator. */
  lemma {:induction false} SplitPiecesFree(s: string, sep: string)
    requires |sep| > 0
    ensures forall k :: 0 <= k < |Split(s, sep)| ==> !Contains(Split(s, sep)[k], sep)
    decreases |s|
  {
    var r := Split(s, sep);
    if |s| < |sep| {
    } else if s[..|sep|] == sep {
      SplitPiecesFree(s[|sep|..], sep);
      assert forall k :: 1 <= k < |r| ==> r[k] == Split(s[|sep|..], sep)[k - 1];
    } else {
      SplitPiecesFree(s[1..], sep);
      var t := Split(s[1..], sep);
      assert forall k :: 1 <= k < |r| ==> r[k] == t[k];
    }
  }

  /** A split gives two or more pieces exactly when the separator occurs. */
  lemma {:induction false} SplitCount(s: string, sep: string)
    requires |sep| > 0
    ensures |Split(s, sep)| >= 2 <==> Contains(s, sep)
    decreases |s|
  {
    if |s| < |sep| {
      NotContainsShort(s, sep);
    } else if s[..|sep|] == sep {
    } else {
      SplitCount(s[1..], sep);
    }
  }

  /** No occurrence of sep starts inside a, in the text a + sep. */
  predicate NoMatchIn(a: string, sep: string) {
    forall j :: 0 <= j < |a| ==> !StartsWith((a + sep)[j..], sep)
  }

  /** When no occurrence of sep starts inside a, splitting a + sep + b
      yields a as the first piece and then the pieces of b. */
  lemma {:induction false} SplitConcat(a: string, sep: string, b: string)
    requires |sep| > 0
    requires NoMatchIn(a, sep)
    ensures Split(a + sep + b, sep) == [a] + Split(b, sep)
    decreases |a|
  {
    var s := a + sep + b;
    if a == [] {
      assert s == sep + b;
      assert s[..|sep|] == sep;
      assert s[|sep|..] == b;
    } else {
      assert !StartsWith((a + sep)[0..], sep);
      assert (a + sep)[0..][..|sep|] == s[..|sep|];
      assert s[1..] == a[1..] + sep + b;
      forall j | 0 <= j < |a[1..]|
        ensures !StartsWith((a[1..] + sep)[j..], sep)
      {
        assert (a[1..] + sep)[j..] == (a + sep)[j + 1..];
      }
      SplitConcat(a[1..], sep, b);
      assert [a[0]] + a[1..] == a;
    }
  }

  /** A one-character separator cannot start inside text that lacks it. */
  lemma NoMatchInChar(a: string, c: char)
    requires c !in a
    ensures NoMatchIn(a, [c])
  {
    forall j | 0 <= j < |a|
      ensures !StartsWith((a + [c])[j..], [c])
    {
      assert (a + [c])[j..][0] == a[j];
    }
  }

  /** t occurs in s at index i. */
  predicate OccursAt(s: string, t: string, i: nat) {
    i + |t| <= |s| && s[i..i + |t|] == t
  }

  /** Text in which t occurs at no index does not contain t. */
  lemma NotContainsAnywhere(s: string, t: string)
    requires forall i: nat :: !OccursAt(s, t, i)
    ensures !Contains(s, t)
  {
    if Contains(s, t) {
      var i := ContainsWitness(s, t);
      assert OccursAt(s, t, i);
    }
  }

  /** A separator whose first character is absent from a cannot start inside a. */
  lemma NoMatchInHead(a: string, sep: string)
    requires |sep| > 0 && sep[0] !in a
    ensures NoMatchIn(a, sep)
  {
    forall j | 0 <= j < |a|
      ensures !StartsWith((a + sep)[j..], sep)
    {
      assert (a + sep)[j..][0] == a[j];
    }
  }

  /** Text that contains t contains t's first character. */
  lemma ContainsHead(s: string, t: string)
    requires |t| > 0 && Contains(s, t)
    ensures t[0] in s
  {
    var i := ContainsWitness(s, t);
    assert s[i..i + |t|][0] == s[i];
  }

  /** Text that contains t contains every prefix of t. */
  lemma ContainsPrefix(s: string, t: string, u: string)
    requires Contains(s, t)
    requires |u| <= |t| && t[..|u|] == u
    ensures Contains(s, u)
  {
    var i := ContainsWitness(s, t);
    assert s[i..i + |u|] == s[i..i + |t|][..|u|];
    ContainsFrom(s, u, i);
  }

  /** Text that does not contain the separator is a single piece. */
  lemma SplitAbsent(s: string, sep: string)
    requires |sep| > 0
    requires !Contains(s, sep)
    ensures Split(s, sep) == [s]
  {
    SplitCount(s, sep);
  }

  /** Joining pieces that lack a one-character separator and splitting the
      result on it gives the pieces back. */
  lemma {:induction false} JoinSplitChar(xs: seq<string>, c: char)
    requires |xs| >= 1
    requires forall k :: 0 <= k < |xs| ==> c !in xs[k]
    ensures Split(Join(xs, [c]), [c]) == xs
    decreases |xs|
  {
    if |xs| == 1 {
      ContainsChar(xs[0], c);
      SplitAbsent(xs[0], [c]);
    } else {
      NoMatchInChar(xs[0], c);
      SplitConcat(xs[0], [c], Join(xs[1..], [c]));
      JoinSplitChar(xs[1..], c);
      assert xs == [xs[0]] + xs[1..];
    }
  }

  /** A character in neither the pieces nor the separator is not in their join. */
  lemma {:induction false} JoinAvoidsChar(xs: seq<string>, sep: string, c: char)
    requires forall k :: 0 <= k < |xs| ==> c !in xs[k]
    requires c !in sep
    ensures c !in Join(xs, sep)
    decreases |xs|
  {
    if |xs| >= 2 {
      JoinAvoidsChar(xs[1..], sep, c);
      assert c !in xs[0];
    } else if |xs| == 1 {
      assert c !in xs[0];
    }
  }

  /** Every text of xs with p in front. */
  function PrefixAll(p: string, xs: seq<string>): (r: seq<string>)
    ensures |r| == |xs| && forall k :: 0 <= k < |xs| ==> r[k] == p + xs[k]
  {
    seq(|xs|, k requires 0 <= k < |xs| => p + xs[k])
  }

  /** Joining with a two-character separator is joining with its first
      character, the second one moved to the front of every later piece. */
  lemma {:induction false} JoinRegroup(xs: seq<string>, c: char, d: char)
    requires |xs| >= 1
    ensures Join(xs, [c, d]) == Join([xs[0]] + PrefixAll([d], xs[1..]), [c])
    decreases |xs|
  {
    var ys := PrefixAll([d], xs[1..]);
    if |xs| == 1 {
      assert [xs[0]] + ys == [xs[0]];
    } else {
      var rest := xs[1..];
      JoinRegroup(rest, c, d);
      var t := [rest[0]] + PrefixAll([d], rest[1..]);
      JoinConsHead(d, t, [c]);
      assert [[d] + t[0]] + t[1..] == ys;
      var zs := [xs[0]] + ys;
      assert zs[0] == xs[0] && zs[1..] == ys;
    }
  }

  /** A join begins with its first piece. */
  lemma JoinHead(xs: seq<string>, sep: string)
    requires |xs| >= 1
    ensures |Join(xs, sep)| >= |xs[0]| && Join(xs, sep)[..|xs[0]|] == xs[0]
  {
  }

  /** A join ends with its last piece. */
  lemma {:induction false} JoinLast(xs: seq<string>, sep: string)
    requires |xs| >= 1
    ensures var j := Join(xs, sep); var last := xs[|xs| - 1];
      |j| >= |last| && j[|j| - |last|..] == last
    decreases |xs|
  {
    if |xs| >= 2 {
      JoinLast(xs[1..], sep);
      assert xs[1..][|xs| - 2] == xs[|xs| - 1];
    }
  }

  /** C#'s String.Replace(string, string) and Python's str.replace: each
      occurrence of pattern found scanning left to right without overlap is
      replaced by replacement. */
  function Replace(s: string, pattern: string, replacement: string): string
    requires |pattern| > 0
    decreases |s|
  {
    if |s| < |pattern| then s
    else if s[..|pattern|] == pattern then replacement + Replace(s[|pattern|..], pattern, replacement)
    else [s[0]] + Replace(s[1..], pattern, replacement)
  }

  /** Replacing is splitting on pattern and joining the pieces with replacement. */
  lemma {:induction false} ReplaceIsSplitJoin(s: string, pattern: string, replacement: string)
    requires |pattern| > 0
    ensures Replace(s, pattern, replacement) == Join(Split(s, pattern), replacement)
    decreases |s|
  {
    if |s| < |pattern| {
    } else if s[..|pattern|] == pattern {
      var rest := Split(s[|pattern|..], pattern);
      assert Split(s, pattern) == [[]] + rest;
      ReplaceIsSplitJoin(s[|pattern|..], pattern, replacement);
      JoinConsEmpty(rest, replacement);
    } else {
      var t := Split(s[1..], pattern);
      assert Split(s, pattern) == [[s[0]] + t[0]] + t[1..];
      ReplaceIsSplitJoin(s[1..], pattern, replacement);
      JoinConsHead(s[0], t, replacement);
    }
  }

  /** Text without an occurrence of pattern is left unchanged. */
  lemma ReplaceAbsent(s: string, pattern: string, replacement: string)
    requires |pattern| > 0
    requires !Contains(s, pattern)
    ensures Replace(s, pattern, replacement) == s
  {
    ReplaceIsSplitJoin(s, pattern, replacement);
    SplitAbsent(s, pattern);
  }

  /** With a non-empty replacement, the result is empty exactly when the text is. */
  lemma {:induction false} ReplaceEmpty(s: string, pattern: string, replacement: string)
    requires |pattern| > 0 && |replacement| > 0
    ensures Replace(s, pattern, replacement) == [] <==> s == []
  {
  }

  /** If every character of the text and of the replacement has property P,
      so has every character of the result. */
  lemma {:induction false} ReplaceKeeps(s: string, pattern: string, replacement: string, P: char -> bool)
    requires |pattern| > 0
    requires forall i :: 0 <= i < |s| ==> P(s[i])
    requires forall i :: 0 <= i < |replacement| ==> P(replacement[i])
    ensures forall i :: 0 <= i < |Replace(s, pattern, replacement)| ==> P(Replace(s, pattern, replacement)[i])
    decreases |s|
  {
    if |s| < |pattern| {
    } else if s[..|pattern|] == pattern {
      ReplaceKeeps(s[|pattern|..], pattern, replacement, P);
    } else {
      ReplaceKeeps(s[1..], pattern, replacement, P);
    }
  }
}
