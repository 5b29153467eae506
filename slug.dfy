/**
 * The suite identity slug: the suite's full title, lower-cased, trimmed, and
 * with every maximal run of characters outside `[a-z0-9]` replaced by one
 * underscore (`toLowerCase().trim().replace(/[^a-z0-9]+/g, '_')`). The slug
 * keys the table of open handles and names the per-suite report file.
 */
module Slug {
  import opened Text

  /** The characters the replacement pattern keeps. */
  predicate IsSlugChar(c: char) {
    ('a' <= c <= 'z') || ('0' <= c <= '9')
  }

  /** The characters JavaScript's `trim` removes: WhiteSpace (with every Zs space) and LineTerminator. */
  predicate IsJsWhitespace(c: char) {
    c == '\t' || c == '\n' || c == '\U{000B}' || c == '\U{000C}' || c == '\r' || c == ' '
    || c == '\U{00A0}' || c == '\U{1680}' || ('\U{2000}' <= c <= '\U{200A}')
    || c == '\U{2028}' || c == '\U{2029}' || c == '\U{202F}' || c == '\U{205F}'
    || c == '\U{3000}' || c == '\U{FEFF}'
  }

  function LowerChar(c: char): char {
    if 'A' <= c <= 'Z' then (c as int + 32) as char else c
  }

  /** `toLowerCase` on ASCII letters. */
  function ToLower(s: string): string {
    seq(|s|, i requires 0 <= i < |s| => LowerChar(s[i]))
  }

  /** Leading whitespace removed. */
  function TrimStart(s: string): (r: string)
    ensures |r| <= |s| && r == s[|s| - |r|..]
    ensures forall i | 0 <= i < |s| - |r| :: IsJsWhitespace(s[i])
    ensures r != [] ==> !IsJsWhitespace(r[0])
  {
    if s != [] && IsJsWhitespace(s[0]) then TrimStart(s[1..]) else s
  }

  /** Trailing whitespace removed. */
  function TrimEnd(s: string): (r: string)
    ensures |r| <= |s| && r == s[..|r|]
    ensures forall i | |r| <= i < |s| :: IsJsWhitespace(s[i])
    ensures r != [] ==> !IsJsWhitespace(r[|r| - 1])
  {
    if s != [] && IsJsWhitespace(s[|s| - 1]) then TrimEnd(s[..|s| - 1]) else s
  }

  /** `trim`: leading and trailing whitespace removed. */
  function Trim(s: string): string {
    TrimEnd(TrimStart(s))
  }

  /** The characters the pattern keeps, in order. */
  function KeepSlugChars(s: string): string {
    if s == [] then []
    else (if IsSlugChar(s[0]) then [s[0]] else []) + KeepSlugChars(s[1..])
  }

  /** The length of the leading run of non-slug characters: what the greedy `[^a-z0-9]+` consumes. */
  function RunLength(s: string): (n: nat)
    ensures n <= |s|
    ensures forall i | 0 <= i < n :: !IsSlugChar(s[i])
    ensures n < |s| ==> IsSlugChar(s[n])
  {
    if s != [] && !IsSlugChar(s[0]) then 1 + RunLength(s[1..]) else 0
  }

  function DropRun(s: string): string {
    s[RunLength(s)..]
  }

  /** The global replacement of every maximal run of non-slug characters by one underscore. */
  function CollapseRuns(s: string): (r: string)
    ensures r == [] <==> s == []
    ensures r != [] ==> (r[0] == '_' <==> !IsSlugChar(s[0]))
    decreases |s|
  {
    if s == [] then []
    else if IsSlugChar(s[0]) then [s[0]] + CollapseRuns(s[1..])
    else ['_'] + CollapseRuns(DropRun(s[1..]))
  }

  /** Only letters, digits and underscores, and never two underscores in a row. */
  lemma {:induction false} CollapseRunsAlphabet(s: string)
    ensures forall i | 0 <= i < |CollapseRuns(s)| :: IsSlugChar(CollapseRuns(s)[i]) || CollapseRuns(s)[i] == '_'
    ensures forall i | 0 <= i < |CollapseRuns(s)| - 1 :: CollapseRuns(s)[i] != '_' || CollapseRuns(s)[i + 1] != '_'
    decreases |s|
  {
    if s != [] {
      var r := CollapseRuns(s);
      if IsSlugChar(s[0]) {
        var rest := CollapseRuns(s[1..]);
        CollapseRunsAlphabet(s[1..]);
        assert r == [s[0]] + rest;
        assert forall i | 1 <= i < |r| :: r[i] == rest[i - 1];
      } else {
        var d := DropRun(s[1..]);
        var rest := CollapseRuns(d);
        CollapseRunsAlphabet(d);
        assert r == ['_'] + rest;
        assert forall i | 1 <= i < |r| :: r[i] == rest[i - 1];
        assert rest != [] ==> rest[0] != '_';
      }
    }
  }

  /** The underscores stand only for what was replaced: the letters and digits are those of the input, in order. */
  lemma {:induction false} CollapseRunsKeeps(s: string)
    ensures KeepSlugChars(CollapseRuns(s)) == KeepSlugChars(s)
    decreases |s|
  {
    if s != [] {
      if IsSlugChar(s[0]) {
        CollapseRunsKeeps(s[1..]);
        assert ([s[0]] + CollapseRuns(s[1..]))[1..] == CollapseRuns(s[1..]);
      } else {
        var d := DropRun(s[1..]);
        CollapseRunsKeeps(d);
        KeepSuffixOf(s[1..], RunLength(s[1..]));
        assert (['_'] + CollapseRuns(d))[1..] == CollapseRuns(d);
      }
    }
  }

  /** The slug ends with an underscore exactly when the input ends outside `[a-z0-9]`. */
  lemma {:induction false} CollapseRunsLast(s: string)
    requires s != []
    ensures CollapseRuns(s)[|CollapseRuns(s)| - 1] == '_' <==> !IsSlugChar(s[|s| - 1])
    decreases |s|
  {
    var r := CollapseRuns(s);
    if IsSlugChar(s[0]) {
      if |s| > 1 {
        CollapseRunsLast(s[1..]);
      }
    } else {
      var d := DropRun(s[1..]);
      if d != [] {
        CollapseRunsLast(d);
        assert d[|d| - 1] == s[|s| - 1];
      } else {
        assert forall i | 0 <= i < |s[1..]| :: !IsSlugChar(s[1..][i]);
        assert |s| > 1 ==> s[|s| - 1] == s[1..][|s| - 2];
      }
    }
  }

  /** A run that stops inside `x` is not lengthened by what follows `x`. */
  lemma {:induction false} RunLengthPrefix(x: string, y: string)
    requires RunLength(x) < |x|
    ensures RunLength(x + y) == RunLength(x)
    decreases |x|
  {
    if !IsSlugChar(x[0]) {
      assert (x + y)[1..] == x[1..] + y;
      RunLengthPrefix(x[1..], y);
    }
  }

  /** A run made of all of `x` stops where `y` starts with a letter or digit. */
  lemma {:induction false} RunLengthWhole(x: string, y: string)
    requires forall i | 0 <= i < |x| :: !IsSlugChar(x[i])
    requires y == [] || IsSlugChar(y[0])
    ensures RunLength(x + y) == |x|
    decreases |x|
  {
    if x == [] {
      assert x + y == y;
    } else {
      assert (x + y)[1..] == x[1..] + y;
      RunLengthWhole(x[1..], y);
    }
  }

  /** The replacement works on each side of a boundary that no run straddles. */
  lemma {:induction false} CollapseRunsSplit(a: string, b: string)
    requires a == [] || IsSlugChar(a[|a| - 1])
    ensures CollapseRuns(a + b) == CollapseRuns(a) + CollapseRuns(b)
    decreases |a|
  {
    if a == [] {
      assert a + b == b;
    } else {
      var t := a + b;
      assert t[0] == a[0];
      assert t[1..] == a[1..] + b;
      if IsSlugChar(a[0]) {
        assert CollapseRuns(t) == [a[0]] + CollapseRuns(a[1..] + b);
        assert CollapseRuns(a) == [a[0]] + CollapseRuns(a[1..]);
        CollapseRunsSplit(a[1..], b);
        Associate([a[0]], CollapseRuns(a[1..]), CollapseRuns(b));
      } else {
        var x := a[1..];
        assert x != [] && x[|x| - 1] == a[|a| - 1];
        RunLengthPrefix(x, b);
        var d := DropRun(x);
        assert (x + b)[RunLength(x)..] == x[RunLength(x)..] + b;
        assert DropRun(x + b) == d + b;
        assert d != [] && d[|d| - 1] == x[|x| - 1];
        assert CollapseRuns(t) == ['_'] + CollapseRuns(d + b);
        assert CollapseRuns(a) == ['_'] + CollapseRuns(d);
        CollapseRunsSplit(d, b);
        Associate(['_'], CollapseRuns(d), CollapseRuns(b));
      }
    }
  }

  /** A run of one or more characters outside `[a-z0-9]` in front of a letter, a digit or the end becomes one underscore. */
  lemma CollapseRunsRun(run: string, b: string)
    requires run != [] && forall i | 0 <= i < |run| :: !IsSlugChar(run[i])
    requires b == [] || IsSlugChar(b[0])
    ensures CollapseRuns(run + b) == "_" + CollapseRuns(b)
  {
    var t := run + b;
    assert t[0] == run[0];
    assert t[1..] == run[1..] + b;
    RunLengthWhole(run[1..], b);
    assert DropRun(t[1..]) == b;
  }

  /** Between a letter or digit and a letter, a digit or the end, a run becomes exactly one underscore. */
  lemma CollapseRunsMiddle(a: string, run: string, b: string)
    requires a == [] || IsSlugChar(a[|a| - 1])
    requires run != [] && forall i | 0 <= i < |run| :: !IsSlugChar(run[i])
    requires b == [] || IsSlugChar(b[0])
    ensures CollapseRuns(a + run + b) == CollapseRuns(a) + "_" + CollapseRuns(b)
  {
    Associate(a, run, b);
    CollapseRunsSplit(a, run + b);
    CollapseRunsRun(run, b);
    Associate(CollapseRuns(a), "_", CollapseRuns(b));
  }

  /** Only `[a-z0-9_]`, and never two underscores in a row. */
  predicate SlugShaped(s: string) {
    && (forall i | 0 <= i < |s| :: IsSlugChar(s[i]) || s[i] == '_')
    && (forall i | 0 <= i < |s| - 1 :: s[i] != '_' || s[i + 1] != '_')
  }

  /** The slug of a suite title. */
  function SuiteSlug(title: string): string {
    CollapseRuns(Trim(ToLower(title)))
  }

  /**
   * A slug holds only `[a-z0-9_]`, never two underscores in a row, the same
   * letters and digits as the lower-cased title, and is empty exactly when the
   * title is nothing but whitespace.
   */
  lemma SuiteSlugShape(title: string)
    ensures forall i | 0 <= i < |SuiteSlug(title)| :: IsSlugChar(SuiteSlug(title)[i]) || SuiteSlug(title)[i] == '_'
    ensures forall i | 0 <= i < |SuiteSlug(title)| - 1 :: SuiteSlug(title)[i] != '_' || SuiteSlug(title)[i + 1] != '_'
    ensures KeepSlugChars(SuiteSlug(title)) == KeepSlugChars(ToLower(title))
    ensures SuiteSlug(title) == [] <==> forall i | 0 <= i < |title| :: IsJsWhitespace(title[i])
    ensures SlugShaped(SuiteSlug(title))
  {
    var t := Trim(ToLower(title));
    assert SuiteSlug(title) == CollapseRuns(t);
    CollapseRunsAlphabet(t);
    CollapseRunsKeeps(t);
    KeepTrimmed(ToLower(title));
    SuiteSlugEmpty(title);
  }

  /** The slug is empty exactly when the title is nothing but whitespace. */
  lemma SuiteSlugEmpty(title: string)
    ensures SuiteSlug(title) == [] <==> forall i | 0 <= i < |title| :: IsJsWhitespace(title[i])
  {
    var low := ToLower(title);
    assert SuiteSlug(title) == CollapseRuns(Trim(low));
    LowerKeepsWhitespace(title);
    TrimEmpty(low);
  }

  /** Lower-casing changes no character into or out of whitespace. */
  lemma LowerKeepsWhitespace(title: string)
    ensures |ToLower(title)| == |title|
    ensures forall i | 0 <= i < |title| :: IsJsWhitespace(ToLower(title)[i]) == IsJsWhitespace(title[i])
  {
  }

  /** Trimming leaves nothing exactly when everything is whitespace. */
  lemma TrimEmpty(s: string)
    ensures Trim(s) == [] <==> forall i | 0 <= i < |s| :: IsJsWhitespace(s[i])
  {
    var ts := TrimStart(s);
    var t := TrimEnd(ts);
    if t == [] {
      assert ts == [];
    } else {
      assert !IsJsWhitespace(t[0]);
      assert t[0] == s[|s| - |ts|];
    }
  }

  /** Whitespace is not kept by the pattern, so trimming keeps the same letters and digits. */
  lemma {:induction false} KeepTrimmed(s: string)
    ensures KeepSlugChars(Trim(s)) == KeepSlugChars(s)
  {
    var ts := TrimStart(s);
    KeepSuffix(s, |s| - |ts|);
    KeepPrefix(ts, |TrimEnd(ts)|);
  }

  lemma {:induction false} KeepAppend(a: string, b: string)
    ensures KeepSlugChars(a + b) == KeepSlugChars(a) + KeepSlugChars(b)
  {
    if a == [] {
      assert a + b == b;
    } else {
      var t := a + b;
      var head := if IsSlugChar(a[0]) then [a[0]] else [];
      assert t[0] == a[0];
      assert t[1..] == a[1..] + b;
      assert KeepSlugChars(t) == head + KeepSlugChars(a[1..] + b);
      KeepAppend(a[1..], b);
      assert KeepSlugChars(a) == head + KeepSlugChars(a[1..]);
      Associate(head, KeepSlugChars(a[1..]), KeepSlugChars(b));
    }
  }

  lemma {:induction false} KeepSuffix(s: string, k: nat)
    requires k <= |s|
    requires forall i | 0 <= i < k :: IsJsWhitespace(s[i])
    ensures KeepSlugChars(s[k..]) == KeepSlugChars(s)
  {
    assert s == s[..k] + s[k..];
    KeepAppend(s[..k], s[k..]);
    KeepNone(s[..k]);
  }

  lemma {:induction false} KeepPrefix(s: string, k: nat)
    requires k <= |s|
    requires forall i | k <= i < |s| :: IsJsWhitespace(s[i])
    ensures KeepSlugChars(s[..k]) == KeepSlugChars(s)
  {
    assert s == s[..k] + s[k..];
    KeepAppend(s[..k], s[k..]);
    KeepNone(s[k..]);
  }

  lemma {:induction false} KeepSuffixOf(s: string, k: nat)
    requires k <= |s|
    requires forall i | 0 <= i < k :: !IsSlugChar(s[i])
    ensures KeepSlugChars(s[k..]) == KeepSlugChars(s)
  {
    assert s == s[..k] + s[k..];
    KeepAppend(s[..k], s[k..]);
    KeepOthers(s[..k]);
  }

  lemma {:induction false} KeepOthers(s: string)
    requires forall i | 0 <= i < |s| :: !IsSlugChar(s[i])
    ensures KeepSlugChars(s) == []
  {
    if s != [] {
      KeepOthers(s[1..]);
    }
  }

  lemma {:induction false} KeepNone(s: string)
    requires forall i | 0 <= i < |s| :: IsJsWhitespace(s[i])
    ensures KeepSlugChars(s) == []
  {
    if s != [] {
      KeepNone(s[1..]);
    }
  }

  /** For example, "My Suite!" becomes "my_suite_". */
  lemma SuiteSlugExample()
    ensures SuiteSlug("My Suite!") == "my_suite_"
  {
    var low := ToLower("My Suite!");
    assert low == "my suite!" by {
      assert |low| == 9;
      assert LowerChar('M') == 'm' && LowerChar('S') == 's';
      forall i | 0 <= i < 9 ensures low[i] == "my suite!"[i] {
      }
    }
    assert TrimStart(low) == low;
    assert TrimEnd(low) == low;
    CollapseExample();
  }

  /** A title that is one lower-case word is its own slug, once lower-cased: "Constructor" becomes "constructor". */
  lemma SuiteSlugConstructor()
    ensures SuiteSlug("Constructor") == "constructor"
  {
    var low := ToLower("Constructor");
    assert low == "constructor" by {
      assert |low| == 11;
      assert LowerChar('C') == 'c';
      forall i | 0 <= i < 11 ensures low[i] == "constructor"[i] {
      }
    }
    assert forall i | 0 <= i < |low| :: IsSlugChar(low[i]);
    assert !IsJsWhitespace(low[0]) && !IsJsWhitespace(low[10]);
    assert Trim(low) == low;
    CollapseRunsPlain(low);
  }

  /** Two different titles can share a slug: "A b" and "a-b" both become "a_b". */
  lemma SharedSlug(t1: string, t2: string)
    requires t1 == "A b" && t2 == "a-b"
    ensures SuiteSlug(t1) == SuiteSlug(t2) == "a_b"
  {
    SlugOfThree(t1, "a", ' ', "b");
    SlugOfThree(t2, "a", '-', "b");
  }

  /** A letter or digit, one character outside `[a-z0-9]`, and a letter or digit give a slug with one underscore. */
  lemma SlugOfThree(title: string, a: string, sep: char, b: string)
    requires |a| == 1 && |b| == 1 && IsSlugChar(a[0]) && IsSlugChar(b[0]) && !IsSlugChar(sep)
    requires |title| == 3 && LowerChar(title[0]) == a[0] && LowerChar(title[1]) == sep && LowerChar(title[2]) == b[0]
    ensures SuiteSlug(title) == a + "_" + b
  {
    var low := a + [sep] + b;
    LowerTrimmed(title, low);
    CollapseRunsPlain(a);
    CollapseRunsPlain(b);
    CollapseRunsMiddle(a, [sep], b);
  }

  /** A three-character title whose lower-case form starts and ends with a letter. */
  lemma LowerTrimmed(title: string, low: string)
    requires |title| == |low| == 3
    requires forall i | 0 <= i < 3 :: LowerChar(title[i]) == low[i]
    requires IsSlugChar(low[0]) && IsSlugChar(low[2])
    ensures Trim(ToLower(title)) == low
  {
    var l := ToLower(title);
    assert l == low;
    assert !IsJsWhitespace(low[0]) && !IsJsWhitespace(low[2]);
    assert TrimStart(low) == low;
  }

  /** Input with nothing to replace is left as it is. */
  lemma {:induction false} CollapseRunsPlain(s: string)
    requires forall i | 0 <= i < |s| :: IsSlugChar(s[i])
    ensures CollapseRuns(s) == s
  {
    if s != [] {
      CollapseRunsPlain(s[1..]);
    }
  }

  lemma CollapseExample()
    ensures CollapseRuns("my suite!") == "my_suite_"
  {
    assert RunLength("") == 0;
    assert DropRun("") == "";
    assert CollapseRuns("!") == "_";
    assert RunLength("suite!") == 0;
    assert DropRun("suite!") == "suite!";
    assert CollapseRuns("e!") == "e_";
    assert CollapseRuns("te!") == "te_";
    assert CollapseRuns("ite!") == "ite_";
    assert CollapseRuns("uite!") == "uite_";
    assert CollapseRuns("suite!") == "suite_";
    assert CollapseRuns(" suite!") == "_suite_";
    assert CollapseRuns("y suite!") == "y_suite_";
  }
}
