/** Normalisation of kernel package names: the part of a name such as
    `kernel-module-8021q-6.12.43-00469-g647daef97a89` that carries the kernel
    version and build identifier is cut off, so that the name stays stable
    across kernel builds.

    The source does this with
    `re.search(r"-(\d+\.\d+(?:\.\d+)?[a-zA-Z0-9._-]*)$", name)` and keeps the
    text before the match. `re.search` reports the leftmost position where the
    pattern matches, so the cut is at the leftmost hyphen from which the rest of
    the name matches. Python's `$` matches at the end of the string and also
    just before a final line feed; the model keeps that. */
module PackageName {
  import opened Wrappers
  import opened Text

  /** A character of the class `[a-zA-Z0-9._-]`. */
  predicate IsTailChar(c: char) {
    IsAsciiAlnum(c) || c == '.' || c == '_' || c == '-'
  }

  /** The end of the run of digits of `t` that starts at `from`, not going past `end`. */
  function DigitRunEnd(t: string, from: nat, end: nat): (k: nat)
    requires from <= end <= |t|
    decreases end - from
    ensures from <= k <= end
    ensures forall m :: from <= m < k ==> IsDigit(t[m])
    ensures k < end ==> !IsDigit(t[k])
  {
    if from == end || !IsDigit(t[from]) then from else DigitRunEnd(t, from + 1, end)
  }

  /** `t[from..end]` matches the group `\d+\.\d+(?:\.\d+)?[a-zA-Z0-9._-]*`.
      Because the trailing class contains digits and dots, this is the same as:
      a run of digits, a dot, a digit, then only class characters
      (`PatternLiteral` below is the group read literally; the two agree by
      `VersionCoreIsPattern` on a whole string, and `SuffixIsPattern` carries
      that over to the suffix tested at a cut). */
  predicate CoreIn(t: string, from: nat, end: nat)
    requires from <= end <= |t|
  {
    var k := DigitRunEnd(t, from, end);
    && from < k && k + 1 < end && t[k] == '.' && IsDigit(t[k + 1])
    && forall m :: k + 2 <= m < end ==> IsTailChar(t[m])
  }

  /** The group followed by Python's `$`, from index `from`: it ends either at
      the very end of `t` or just before a final line feed. */
  predicate SuffixFrom(t: string, from: nat)
    requires from <= |t|
  {
    || CoreIn(t, from, |t|)
    || (from < |t| && t[|t| - 1] == '\n' && CoreIn(t, from, |t| - 1))
  }

  /** The regular expression matches `name` starting at index `p`. */
  predicate IsCut(name: string, p: nat) {
    p < |name| && name[p] == '-' && SuffixFrom(name, p + 1)
  }

  /** The leftmost match position at or after `from`. */
  function LeftmostCutFrom(name: string, from: nat): (r: Option<nat>)
    requires from <= |name|
    decreases |name| - from
    ensures r.Some? ==> from <= r.value && IsCut(name, r.value)
    ensures r.Some? ==> forall q :: from <= q < r.value ==> !IsCut(name, q)
    ensures r.None? ==> forall q :: from <= q ==> !IsCut(name, q)
  {
    if from == |name| then None
    else if IsCut(name, from) then Some(from)
    else LeftmostCutFrom(name, from + 1)
  }

  /** `normalize_package_name`: the name up to the leftmost hyphen that starts
      a version suffix, or the whole name when there is none. */
  function Normalize(name: string): (r: string)
    ensures StartsWith(name, r)
    ensures r == name <==> forall q :: !IsCut(name, q)
    ensures r != name ==> IsCut(name, |r|) && forall q: nat :: q < |r| ==> !IsCut(name, q)
  {
    match LeftmostCutFrom(name, 0)
    case Some(p) => name[..p]
    case None => name
  }

  // ---------------------------------------------------------------------------
  // The literal reading of the pattern

  predicate AllDigits(t: string) {
    forall i :: 0 <= i < |t| ==> IsDigit(t[i])
  }

  predicate AllTail(t: string) {
    forall i :: 0 <= i < |t| ==> IsTailChar(t[i])
  }

  /** `t` splits as `\d+` `.` `\d+` then optionally `.` `\d+`, then
      `[a-zA-Z0-9._-]*`, at the indices `i` (first dot), `j` (end of the
      second number) and `l` (end of the optional group). */
  predicate LiteralSplit(t: string, i: nat, j: nat, l: nat) {
    && 1 <= i && i + 1 < j <= l <= |t|
    && AllDigits(t[..i]) && t[i] == '.' && AllDigits(t[i + 1..j])
    && (l == j || (t[j] == '.' && j + 1 < l && AllDigits(t[j + 1..l])))
    && AllTail(t[l..])
  }

  ghost predicate PatternLiteral(t: string) {
    exists i, j, l :: LiteralSplit(t, i, j, l)
  }

  /** A digit run that stops at a non-digit (or at `end`) is the one `DigitRunEnd` finds. */
  lemma DigitRunEndAt(t: string, from: nat, end: nat, k: nat)
    requires from <= k <= end <= |t|
    requires forall m :: from <= m < k ==> IsDigit(t[m])
    requires k < end ==> !IsDigit(t[k])
    ensures DigitRunEnd(t, from, end) == k
  {
  }

  /** The simplified reading of the whole string agrees with the literal one. */
  lemma VersionCoreIsPattern(t: string)
    ensures CoreIn(t, 0, |t|) <==> PatternLiteral(t)
  {
    if CoreIn(t, 0, |t|) {
      var k := DigitRunEnd(t, 0, |t|);
      assert LiteralSplit(t, k, k + 2, k + 2);
    }
    if PatternLiteral(t) {
      var i: nat, j: nat, l: nat :| LiteralSplit(t, i, j, l);
      assert forall m :: 0 <= m < i ==> t[..i][m] == t[m];
      DigitRunEndAt(t, 0, |t|, i);
      assert t[i + 1..j][0] == t[i + 1];
      forall m | i + 2 <= m < |t|
        ensures IsTailChar(t[m])
      {
        if m < j {
          assert t[i + 1..j][m - i - 1] == t[m];
        } else if m < l {
          if m > j {
            assert t[j + 1..l][m - j - 1] == t[m];
          }
        } else {
          assert t[l..][m - l] == t[m];
        }
      }
    }
  }

  /** Testing the group on `t[from..end]` in place is testing it on the slice. */
  lemma CoreInShift(t: string, from: nat, end: nat)
    requires from <= end <= |t|
    ensures CoreIn(t, from, end) == CoreIn(t[from..end], 0, end - from)
  {
    var s := t[from..end];
    var k := DigitRunEnd(t, from, end);
    DigitRunEndAt(s, 0, end - from, k - from);
    assert forall m :: k + 2 <= m < end ==> t[m] == s[m - from];
  }

  /** The suffix test at a cut is the literal group followed by Python's `$`:
      the rest of the name matches the group, or it does once a final line
      feed is set aside. */
  lemma SuffixIsPattern(t: string, from: nat)
    requires from <= |t|
    ensures SuffixFrom(t, from) <==>
      || PatternLiteral(t[from..])
      || (from < |t| && t[|t| - 1] == '\n' && PatternLiteral(t[from..|t| - 1]))
  {
    CoreInShift(t, from, |t|);
    VersionCoreIsPattern(t[from..]);
    assert t[from..|t|] == t[from..];
    if from < |t| {
      CoreInShift(t, from, |t| - 1);
      VersionCoreIsPattern(t[from..|t| - 1]);
    }
  }

  // ---------------------------------------------------------------------------
  // The documented examples

  /** A stretch of the name without hyphens holds no cut. */
  lemma {:induction false} SkipSpan(name: string, from: nat, to: nat)
    requires from <= to <= |name|
    requires forall q :: from <= q < to ==> name[q] != '-'
    ensures LeftmostCutFrom(name, from) == LeftmostCutFrom(name, to)
    decreases |name| - from
  {
    if from < to {
      SkipSpan(name, from + 1, to);
    }
  }

  /** When the search from the start reaches a cut at `p`, the name is cut there. */
  lemma FirstCutAt(name: string, p: nat)
    requires p <= |name| && IsCut(name, p)
    requires LeftmostCutFrom(name, 0) == LeftmostCutFrom(name, p)
    ensures Normalize(name) == name[..p]
  {
  }

  /** The first example of the docstring: the kernel package itself. */
  lemma KernelExample()
    ensures Normalize("kernel-6.12.43-00469-g647daef97a89") == "kernel"
  {
    var a := "kernel-6.12.43-00469-g647daef97a89";
    assert a == "kernel" + "-6.12.43" + "-00469-g647daef97a89";
    KernelSteps(a);
    FirstCutAt(a, 6);
  }

  lemma KernelSteps(a: string)
    requires a == "kernel" + "-6.12.43" + "-00469-g647daef97a89"
    ensures IsCut(a, 6) && LeftmostCutFrom(a, 0) == LeftmostCutFrom(a, 6)
    ensures a[..6] == "kernel"
  {
    SkipSpan(a, 0, 6);
    DigitRunEndAt(a, 7, |a|, 8);
  }

  /** A kernel name keeps its `kernel` prefix: the cut is at a hyphen, and
      `kernel` has none. */
  lemma KernelPrefixKept(name: string)
    requires name == "kernel" || StartsWith(name, "kernel-")
    ensures StartsWith(Normalize(name), "kernel")
  {
    var k := Normalize(name);
    if k != name {
      HyphenAfterKernel(name, |k|);
      assert k[..6] == name[..6];
    }
  }

  lemma HyphenAfterKernel(name: string, p: nat)
    requires StartsWith(name, "kernel") && p < |name| && name[p] == '-'
    ensures 6 <= p
  {
    forall q | 0 <= q < 6
      ensures name[q] != '-'
    {
      assert name[q] == name[..6][q];
    }
  }

  /** The second example of the docstring: a kernel module, whose own name
      contains hyphens, one of them followed by digits. */
  lemma KernelModuleExample()
    ensures Normalize("kernel-module-8021q-6.12.43-00469-g647daef97a89") == "kernel-module-8021q"
  {
    ModuleSpelling();
    ModuleSteps("kernel-module-8021q-6.12.43-00469-g647daef97a89");
  }

  lemma ModuleSpelling()
    ensures "kernel-module-8021q-6.12.43-00469-g647daef97a89" == "kernel" + "-module" + "-8021q" + "-6.12.43-00469-g647daef97a89"
  {
    ModuleNameSpelling();
    ModuleVersionSpelling();
  }

  lemma ModuleNameSpelling()
    ensures "kernel-module-8021q" == "kernel" + "-module" + "-8021q"
  {
  }

  lemma ModuleVersionSpelling()
    ensures "kernel-module-8021q-6.12.43-00469-g647daef97a89" == "kernel-module-8021q" + "-6.12.43-00469-g647daef97a89"
  {
  }

  lemma ModuleSteps(b: string)
    requires b == "kernel" + "-module" + "-8021q" + "-6.12.43-00469-g647daef97a89"
    ensures Normalize(b) == "kernel-module-8021q"
  {
    ModuleSkipKernel(b);
    ModuleSkipModule(b);
    ModuleSkipNumber(b);
    ModuleCut(b);
    FirstCutAt(b, 19);
    ModulePrefix(b);
  }

  lemma ModuleSkipKernel(b: string)
    requires b == "kernel" + "-module" + "-8021q" + "-6.12.43-00469-g647daef97a89"
    ensures LeftmostCutFrom(b, 0) == LeftmostCutFrom(b, 7)
  {
    SkipSpan(b, 0, 6);
    DigitRunEndAt(b, 7, |b|, 7);
    DigitRunEndAt(b, 7, |b| - 1, 7);
    assert !IsCut(b, 6);
  }

  lemma ModuleSkipModule(b: string)
    requires b == "kernel" + "-module" + "-8021q" + "-6.12.43-00469-g647daef97a89"
    ensures LeftmostCutFrom(b, 7) == LeftmostCutFrom(b, 14)
  {
    SkipSpan(b, 7, 13);
    DigitRunEndAt(b, 14, |b|, 18);
    DigitRunEndAt(b, 14, |b| - 1, 18);
    assert !IsCut(b, 13);
  }

  lemma ModuleCut(b: string)
    requires b == "kernel" + "-module" + "-8021q" + "-6.12.43-00469-g647daef97a89"
    ensures IsCut(b, 19)
  {
    DigitRunEndAt(b, 20, |b|, 21);
  }

  lemma ModuleSkipNumber(b: string)
    requires b == "kernel" + "-module" + "-8021q" + "-6.12.43-00469-g647daef97a89"
    ensures LeftmostCutFrom(b, 14) == LeftmostCutFrom(b, 19)
  {
    SkipSpan(b, 14, 19);
  }

  lemma ModulePrefix(b: string)
    requires b == "kernel" + "-module" + "-8021q" + "-6.12.43-00469-g647daef97a89"
    ensures b[..19] == "kernel-module-8021q"
  {
    assert b[..19] == "kernel" + "-module" + "-8021q";
  }

  /** A name whose only hyphen is not followed by a version is left unchanged. */
  lemma NoVersionExample()
    ensures Normalize("i2c-tools") == "i2c-tools"
  {
    var c := "i2c-tools";
    DigitRunEndAt(c, 4, |c|, 4);
    assert !IsCut(c, 3);
    SkipSpan(c, 0, 3);
    SkipSpan(c, 4, |c|);
  }

  // ---------------------------------------------------------------------------
  // Idempotence

  /** A suffix match ending at `p`, followed by a hyphen and by the class
      characters of a second match, extends to a match of the whole name. */
  lemma CoreExtend(t: string, from: nat, p: nat)
    requires from <= p < |t| && CoreIn(t, from, p) && t[p] == '-'
    requires CoreIn(t, p + 1, |t|)
    ensures CoreIn(t, from, |t|)
  {
    var k := DigitRunEnd(t, from, p);
    DigitRunEndAt(t, from, |t|, k);
    var k2 := DigitRunEnd(t, p + 1, |t|);
    forall m | k + 2 <= m < |t|
      ensures IsTailChar(t[m])
    {
      if p + 1 <= m < k2 {
        assert IsDigit(t[m]);
      }
    }
  }

  /** Whether `name[..p]` matches from `from` to its end depends only on the prefix. */
  lemma CoreInPrefix(name: string, from: nat, p: nat)
    requires from <= p <= |name|
    ensures CoreIn(name[..p], from, p) == CoreIn(name, from, p)
  {
    var k := DigitRunEnd(name, from, p);
    DigitRunEndAt(name[..p], from, p, k);
  }

  /** A cut of the text before a cut at `p` is a cut of the whole name. */
  lemma CutBeforeCut(name: string, p: nat, q: nat)
    requires '\n' !in name
    requires IsCut(name, p) && q < p && IsCut(name[..p], q)
    ensures IsCut(name, q)
  {
    var r := name[..p];
    assert r[|r| - 1] in name;
    assert CoreIn(r, q + 1, p);
    CoreInPrefix(name, q + 1, p);
    assert name[|name| - 1] in name;
    CoreExtend(name, q + 1, p);
  }

  /** Normalising a name without a line feed a second time changes nothing:
      the text before the leftmost cut contains no cut, because such a cut
      would also be a cut of the whole name, further left. */
  lemma NormalizeIdempotent(name: string)
    requires '\n' !in name
    ensures Normalize(Normalize(name)) == Normalize(name)
  {
    var r := Normalize(name);
    if r != name {
      var p := |r|;
      assert r == name[..p];
      forall q: nat
        ensures !IsCut(r, q)
      {
        if IsCut(r, q) {
          CutBeforeCut(name, p, q);
        }
      }
    }
  }

  /** With a line feed inside the name, a second normalisation can cut
      further: the first pass stops before `-3.4`, the second then finds
      `-1.2` followed by the final line feed. */
  lemma NewlineBreaksIdempotence()
    ensures Normalize("kernel-1.2\n-3.4") == "kernel-1.2\n"
    ensures Normalize("kernel-1.2\n") == "kernel"
  {
    NewlineFirstPass("kernel-1.2\n-3.4");
    NewlineSecondPass("kernel-1.2\n");
  }

  lemma NewlineFirstPass(a: string)
    requires a == "kernel-1.2\n-3.4"
    ensures Normalize(a) == "kernel-1.2\n"
  {
    SkipSpan(a, 0, 6);
    DigitRunEndAt(a, 7, |a|, 8);
    DigitRunEndAt(a, 7, |a| - 1, 8);
    assert !IsTailChar(a[10]);
    assert !IsCut(a, 6);
    SkipSpan(a, 7, 11);
    DigitRunEndAt(a, 12, |a|, 13);
    FirstCutAt(a, 11);
  }

  lemma NewlineSecondPass(b: string)
    requires b == "kernel-1.2\n"
    ensures Normalize(b) == "kernel"
  {
    SkipSpan(b, 0, 6);
    DigitRunEndAt(b, 7, |b| - 1, 8);
    FirstCutAt(b, 6);
  }
}
