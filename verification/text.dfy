/** The handful of Python `str` operations the core relies on, over ASCII
    characters: whitespace, `startswith`, substring search, `split`,
    `strip` and `lower`. */
module Text {
  import opened Wrappers

  /** `str.isspace()` restricted to ASCII: space, tab, line feed, vertical tab,
      form feed, carriage return and the four separators 0x1C-0x1F. */
  const Whitespace: set<char> :=
    {' ', '\t', '\n', '\U{000B}', '\U{000C}', '\r', '\U{001C}', '\U{001D}', '\U{001E}', '\U{001F}'}

  predicate IsSpace(c: char) {
    c in Whitespace
  }

  predicate IsDigit(c: char) {
    '0' <= c <= '9'
  }

  predicate IsAsciiAlnum(c: char) {
    IsDigit(c) || ('a' <= c <= 'z') || ('A' <= c <= 'Z')
  }

  /** `s.startswith(p)` */
  predicate StartsWith(s: string, p: string) {
    |p| <= |s| && s[..|p|] == p
  }

  /** `sub` occurs in `s` starting at index `i`. */
  predicate OccursAt(s: string, i: nat, sub: string) {
    i + |sub| <= |s| && s[i..i + |sub|] == sub
  }

  /** The leftmost index at or after `from` where `sub` occurs (`str.find`). */
  function IndexOfFrom(s: string, sub: string, from: nat): (r: Option<nat>)
    requires from <= |s|
    decreases |s| - from
    ensures r.Some? ==> from <= r.value && OccursAt(s, r.value, sub)
    ensures r.Some? ==> forall j :: from <= j < r.value ==> !OccursAt(s, j, sub)
    ensures r.None? ==> forall j :: from <= j <= |s| ==> !OccursAt(s, j, sub)
  {
    if from + |sub| > |s| then None
    else if OccursAt(s, from, sub) then Some(from)
    else IndexOfFrom(s, sub, from + 1)
  }

  function IndexOf(s: string, sub: string): (r: Option<nat>)
    ensures r.Some? ==> OccursAt(s, r.value, sub)
    ensures r.Some? ==> forall j :: 0 <= j < r.value ==> !OccursAt(s, j, sub)
    ensures r.None? ==> forall j :: 0 <= j <= |s| ==> !OccursAt(s, j, sub)
  {
    IndexOfFrom(s, sub, 0)
  }

  /** `sub in s` */
  predicate Contains(s: string, sub: string) {
    IndexOf(s, sub).Some?
  }

  /** `s.split(sep)[0]`: the text before the first occurrence of `sep`, or all of `s`. */
  function SplitHead(s: string, sep: string): (r: string)
    ensures StartsWith(s, r)
  {
    match IndexOf(s, sep)
    case Some(i) => s[..i]
    case None => s
  }

  /** `s.split(sep, 1)[1]`: the text after the first occurrence of `sep`;
      None where Python's indexing would raise. */
  function AfterFirst(s: string, sep: string): (r: Option<string>)
    ensures r.Some? <==> Contains(s, sep)
    ensures r.Some? ==> s == SplitHead(s, sep) + sep + r.value
  {
    match IndexOf(s, sep)
    case Some(i) =>
      assert s == s[..i] + sep + s[i + |sep|..];
      Some(s[i + |sep|..])
    case None => None
  }

  /** `s.split(sep)[1]`: the text between the first and the second occurrence
      of `sep` (or the end); None where Python's indexing would raise. */
  function SplitSecond(s: string, sep: string): (r: Option<string>)
    ensures r.Some? <==> Contains(s, sep)
  {
    match AfterFirst(s, sep)
    case Some(rest) => Some(SplitHead(rest, sep))
    case None => None
  }

  /** Drops leading characters of `cs`. */
  function TrimLeft(s: string, cs: set<char>): (r: string)
    ensures |r| <= |s| && r == s[|s| - |r|..]
    ensures forall i :: 0 <= i < |s| - |r| ==> s[i] in cs
    ensures r != [] ==> r[0] !in cs
  {
    if s != [] && s[0] in cs then TrimLeft(s[1..], cs) else s
  }

  /** Drops trailing characters of `cs`. */
  function TrimRight(s: string, cs: set<char>): (r: string)
    ensures |r| <= |s| && r == s[..|r|]
    ensures forall i :: |r| <= i < |s| ==> s[i] in cs
    ensures r != [] ==> r[|r| - 1] !in cs
  {
    if s != [] && s[|s| - 1] in cs then TrimRight(s[..|s| - 1], cs) else s
  }

  /** `r` is `s` with the prefix `s[..a]` and a suffix removed, all of whose
      characters are in `cs`. */
  predicate StrippedAt(s: string, r: string, cs: set<char>, a: nat) {
    && a + |r| <= |s| && r == s[a..a + |r|]
    && (forall i :: 0 <= i < a ==> s[i] in cs)
    && (forall i :: a + |r| <= i < |s| ==> s[i] in cs)
  }

  /** `s.strip(chars)`: the longest middle part of `s` whose two ends are not in `cs`. */
  function StripChars(s: string, cs: set<char>): (r: string)
    ensures r != [] ==> r[0] !in cs && r[|r| - 1] !in cs
  {
    TrimRight(TrimLeft(s, cs), cs)
  }

  /** What `StripChars` removes: a prefix and a suffix made only of
      characters of `cs`. */
  lemma StripCharsIsStripped(s: string, cs: set<char>)
    ensures exists a :: StrippedAt(s, StripChars(s, cs), cs, a)
  {
    var a := StripCharsAt(s, cs);
  }

  /** The witness of `StripCharsIsStripped`: the number of characters removed
      at the front. */
  lemma StripCharsAt(s: string, cs: set<char>) returns (a: nat)
    ensures StrippedAt(s, StripChars(s, cs), cs, a)
  {
    var l := TrimLeft(s, cs);
    var r := TrimRight(l, cs);
    a := |s| - |l|;
    assert l == s[a..];
    assert r == s[a..a + |r|] by {
      assert r == l[..|r|];
    }
    TrimmedSuffix(s, l, r, a, cs);
  }

  lemma TrimmedSuffix(s: string, l: string, r: string, a: nat, cs: set<char>)
    requires a <= |s| && l == s[a..] && |r| <= |l|
    requires forall i :: |r| <= i < |l| ==> l[i] in cs
    ensures forall i :: a + |r| <= i < |s| ==> s[i] in cs
  {
    forall i | a + |r| <= i < |s| ensures s[i] in cs {
      assert s[i] == l[i - a];
    }
  }

  /** `s.strip()`: surrounding whitespace removed. */
  function Strip(s: string): (r: string)
    ensures r != [] ==> !IsSpace(r[0]) && !IsSpace(r[|r| - 1])
  {
    StripChars(s, Whitespace)
  }

  function LowerChar(c: char): char {
    if 'A' <= c <= 'Z' then (c as int + 32) as char else c
  }

  /** `s.lower()` on ASCII letters. */
  function Lower(s: string): (r: string)
    ensures |r| == |s| && forall i :: 0 <= i < |s| ==> r[i] == LowerChar(s[i])
  {
    seq(|s|, i requires 0 <= i < |s| => LowerChar(s[i]))
  }

  /** Length of the run of non-whitespace characters that starts `s`. */
  function NonSpaceRun(s: string): (n: nat)
    ensures n <= |s|
    ensures forall i :: 0 <= i < n ==> !IsSpace(s[i])
    ensures n < |s| ==> IsSpace(s[n])
  {
    if s == [] || IsSpace(s[0]) then 0 else 1 + NonSpaceRun(s[1..])
  }

  /** `s.split()`: the maximal runs of non-whitespace characters, in order. */
  function Tokens(s: string): (r: seq<string>)
    decreases |s|
  {
    if s == [] then []
    else if IsSpace(s[0]) then Tokens(s[1..])
    else
      var n := NonSpaceRun(s);
      [s[..n]] + Tokens(s[n..])
  }

  /** An occurrence with none before it is the one `find` reports. */
  lemma IndexOfIs(s: string, sub: string, i: nat)
    requires OccursAt(s, i, sub)
    requires forall j :: 0 <= j < i ==> !OccursAt(s, j, sub)
    ensures IndexOf(s, sub) == Some(i)
  {
  }

  /** A character that does not occur is not found. */
  lemma NotContainsChar(s: string, c: char)
    requires c !in s
    ensures !Contains(s, [c])
  {
    forall j | 0 <= j <= |s| ensures !OccursAt(s, j, [c]) {
      if j < |s| {
        assert s[j..j + 1] == [s[j]];
      }
    }
  }

  /** Splitting `a + x` at a character that `a` lacks and `x` starts with
      gives back `a`. */
  lemma SplitHeadAtChar(a: string, x: string, c: char)
    requires c !in a
    requires x == [] || x[0] == c
    ensures SplitHead(a + x, [c]) == a
  {
    var s := a + x;
    forall j | 0 <= j < |a| ensures !OccursAt(s, j, [c]) {
      assert s[j..j + 1] == [a[j]];
    }
    if x == [] {
      assert s == a;
      NotContainsChar(a, c);
    } else {
      assert s[|a|..|a| + 1] == [c];
      IndexOfIs(s, [c], |a|);
    }
  }

  /** A string that starts with `p` followed by `c`, where `p` lacks `c`,
      has its first `c` right after `p`. */
  lemma FirstCharAfter(s: string, p: string, c: char)
    requires c !in p && StartsWith(s, p + [c])
    ensures IndexOf(s, [c]) == Some(|p|) && s[..|p|] == p
  {
    forall j | 0 <= j < |p| ensures !OccursAt(s, j, [c]) {
      assert s[j] == (p + [c])[j];
      assert s[j..j + 1] == [s[j]];
    }
    assert s[|p|..|p| + 1] == [c] by { assert s[|p|] == (p + [c])[|p|]; }
    IndexOfIs(s, [c], |p|);
    assert s[..|p|] == (p + [c])[..|p|];
  }

  /** Stripping a string whose two ends are outside `cs` changes nothing. */
  lemma StripCharsKeeps(s: string, cs: set<char>)
    requires s != [] ==> s[0] !in cs && s[|s| - 1] !in cs
    ensures StripChars(s, cs) == s
  {
  }

  /** Stripping a string wrapped in one character of `cs` on each side gives
      the inner string back, when its ends are outside `cs`. */
  lemma StripCharsUnwraps(c: char, v: string, cs: set<char>)
    requires c in cs
    requires v != [] ==> v[0] !in cs && v[|v| - 1] !in cs
    ensures StripChars([c] + v + [c], cs) == v
  {
    var t := v + [c];
    assert [c] + v + [c] == [c] + t;
    TrimLeftDropsOne(c, t, cs);
    if v == [] {
      assert TrimLeft(t, cs) == [] by { TrimLeftDropsOne(c, [], cs); }
    } else {
      assert t[0] == v[0];
      assert TrimLeft(t, cs) == t;
      TrimRightDropsOne(v, c, cs);
      assert TrimRight(v, cs) == v;
    }
  }

  lemma TrimLeftDropsOne(c: char, t: string, cs: set<char>)
    requires c in cs
    ensures TrimLeft([c] + t, cs) == TrimLeft(t, cs)
  {
    assert ([c] + t)[1..] == t;
  }

  lemma TrimRightDropsOne(v: string, c: char, cs: set<char>)
    requires c in cs
    ensures TrimRight(v + [c], cs) == TrimRight(v, cs)
  {
    assert (v + [c])[..|v|] == v;
  }
}
