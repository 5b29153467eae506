/**
 * `unifiedDiff`: the diagnostic text of a failed assertion. The unified
 * patch between the actual and expected values comes from a diff library
 * and JSON stringification of non-string values from the runtime; both are
 * parameters here. What is modelled is the post-processing: the header lines
 * are skipped, hunk markers and no-newline markers are dropped, and tabs,
 * carriage returns and line feeds are made visible.
 */
module Diff {
  import opened Wrappers
  import opened Text

  /** A value carried by an assertion error as `actual` or `expected`. */
  datatype Value =
    | Undefined
    | Str(s: string)
    | NonString(id: int, truthy: bool)  // a number, boolean, object, ... known only by identity and truthiness

  /** JavaScript truthiness. */
  predicate Truthy(v: Value) {
    match v
    case Undefined => false
    case Str(s) => s != ""
    case NonString(_, t) => t
  }

  /** The error object of a failed test. An absent message or stack is the empty string. */
  datatype TestError = TestError(message: string, actual: Value, expected: Value, stack: string)

  /** The single-pass reading of `escapeInvisibles`. */
  function InvisibleChar(c: char): string {
    if c == '\t' then "<tab>"
    else if c == '\r' then "<CR>"
    else if c == '\n' then "<LF>\n"
    else [c]
  }

  /** The source's three replacements, in its order. */
  function EscapeInvisibles(line: string): string {
    ReplaceAll(ReplaceAll(ReplaceAll(line, '\t', "<tab>"), '\r', "<CR>"), '\n', "<LF>\n")
  }

  lemma EscapeInvisiblesChar(c: char)
    ensures EscapeInvisibles([c]) == InvisibleChar(c)
  {
    assert [c][1..] == [];
    if c == '\t' {
      assert '\r' !in "<tab>" && '\n' !in "<tab>";
    } else if c == '\r' {
      assert '\n' !in "<CR>";
    }
  }

  /** No replacement text contains a character replaced after it, so the chain works character by character. */
  lemma {:induction false} EscapeInvisiblesSinglePass(line: string)
    ensures EscapeInvisibles(line) == Translate(line, InvisibleChar)
  {
    if line != [] {
      var c, rest := line[0], line[1..];
      assert line == [c] + rest;
      var a1, b1 := ReplaceAll([c], '\t', "<tab>"), ReplaceAll(rest, '\t', "<tab>");
      ReplaceAllAppend([c], rest, '\t', "<tab>");
      var a2, b2 := ReplaceAll(a1, '\r', "<CR>"), ReplaceAll(b1, '\r', "<CR>");
      ReplaceAllAppend(a1, b1, '\r', "<CR>");
      ReplaceAllAppend(a2, b2, '\n', "<LF>\n");
      EscapeInvisiblesChar(c);
      EscapeInvisiblesSinglePass(rest);
    }
  }

  /** Every line feed of `x` comes right after the marker `<LF>`. */
  predicate LineFeedsMarked(x: string) {
    forall i | 0 <= i < |x| && x[i] == '\n' :: 4 <= i && x[i - 4..i] == "<LF>"
  }

  lemma LineFeedsMarkedAppend(x: string, y: string)
    requires LineFeedsMarked(x) && LineFeedsMarked(y)
    ensures LineFeedsMarked(x + y)
  {
    var t := x + y;
    forall i | 0 <= i < |t| && t[i] == '\n' ensures 4 <= i && t[i - 4..i] == "<LF>" {
      if i < |x| {
        assert x[i] == '\n';
        assert t[i - 4..i] == x[i - 4..i];
      } else {
        var j := i - |x|;
        assert y[j] == '\n';
        assert t[i - 4..i] == y[j - 4..j];
      }
    }
  }

  lemma InvisibleCharMarked(c: char)
    ensures LineFeedsMarked(InvisibleChar(c))
  {
    if c == '\n' {
      var h := InvisibleChar(c);
      assert h == "<LF>\n";
      assert forall i | 0 <= i < 4 :: h[i] != '\n';
      assert h[0..4] == "<LF>";
    }
  }

  /** Every line feed of a translation by `InvisibleChar` comes right after the marker `<LF>`. */
  lemma {:induction false} TranslateInvisibleLineFeeds(s: string)
    ensures LineFeedsMarked(Translate(s, InvisibleChar))
  {
    if s != [] {
      TranslateInvisibleLineFeeds(s[1..]);
      InvisibleCharMarked(s[0]);
      LineFeedsMarkedAppend(InvisibleChar(s[0]), Translate(s[1..], InvisibleChar));
    }
  }

  /** Text that shows its invisible characters: no tab, no carriage return, and every line feed right after `<LF>`. */
  predicate Visible(x: string) {
    '\t' !in x && '\r' !in x && LineFeedsMarked(x)
  }

  /** Escaped text shows every tab, carriage return and line feed: none of the first two remains, and every line feed follows `<LF>`. */
  lemma EscapeInvisiblesVisible(line: string)
    ensures Visible(EscapeInvisibles(line))
  {
    EscapeInvisiblesSinglePass(line);
    TranslateAvoids(line, InvisibleChar, '\t');
    TranslateAvoids(line, InvisibleChar, '\r');
    TranslateInvisibleLineFeeds(line);
  }

  /** A line `cleanUp` keeps: no hunk marker and no no-newline marker. */
  predicate Kept(line: string) {
    !Contains(line, "@@") && !Contains(line, "\\ No newline")
  }

  /** `cleanUp`: `null` for a dropped line, the visible form of a kept one. */
  function CleanUp(line: string): Option<string> {
    if Contains(line, "@@") then None
    else if Contains(line, "\\ No newline") then None
    else Some(EscapeInvisibles(line))
  }

  /** `notBlank`. */
  predicate NotBlank(line: Option<string>) {
    line != None
  }

  /** `lines.map(cleanUp)`. */
  function MapCleanUp(lines: seq<string>): seq<Option<string>> {
    seq(|lines|, k requires 0 <= k < |lines| => CleanUp(lines[k]))
  }

  /** `.filter(notBlank)`. */
  function FilterNotBlank(xs: seq<Option<string>>): seq<string> {
    if xs == [] then []
    else (if NotBlank(xs[0]) then [xs[0].value] else []) + FilterNotBlank(xs[1..])
  }

  /** The source's pipeline: map, then drop the nulls. */
  function CleanLines(lines: seq<string>): seq<string> {
    FilterNotBlank(MapCleanUp(lines))
  }

  /** The independent reading: keep the lines without markers, then escape each. */
  function KeptEscaped(lines: seq<string>): (r: seq<string>)
    ensures |r| <= |lines|
    ensures (forall k | 0 <= k < |lines| :: Kept(lines[k])) ==> |r| == |lines|
  {
    if lines == [] then []
    else (if Kept(lines[0]) then [EscapeInvisibles(lines[0])] else []) + KeptEscaped(lines[1..])
  }

  /** Mapping `cleanUp` and dropping the nulls is the same as filtering, then escaping. */
  lemma {:induction false} CleanLinesFilterThenEscape(lines: seq<string>)
    ensures CleanLines(lines) == KeptEscaped(lines)
  {
    if lines != [] {
      assert MapCleanUp(lines)[1..] == MapCleanUp(lines[1..]);
      CleanLinesFilterThenEscape(lines[1..]);
    }
  }

  /** `x` is the visible form of some kept line of `lines`. */
  ghost predicate CleanedFrom(x: string, lines: seq<string>) {
    exists j | 0 <= j < |lines| :: Kept(lines[j]) && x == EscapeInvisibles(lines[j])
  }

  /**
   * Every line that survives is the visible form of a kept input line: it
   * holds no tab or carriage return, and each of its line feeds follows `<LF>`.
   */
  lemma {:induction false} CleanLinesFromKept(lines: seq<string>)
    ensures forall k | 0 <= k < |CleanLines(lines)| :: CleanedFrom(CleanLines(lines)[k], lines)
    ensures forall k | 0 <= k < |CleanLines(lines)| :: Visible(CleanLines(lines)[k])
  {
    CleanLinesFilterThenEscape(lines);
    KeptEscapedFromKept(lines);
    KeptEscapedVisible(lines);
  }

  lemma {:induction false} KeptEscapedFromKept(lines: seq<string>)
    ensures forall k | 0 <= k < |KeptEscaped(lines)| :: CleanedFrom(KeptEscaped(lines)[k], lines)
  {
    if lines != [] {
      KeptEscapedFromKept(lines[1..]);
      var r, rest := KeptEscaped(lines), KeptEscaped(lines[1..]);
      var off := if Kept(lines[0]) then 1 else 0;
      assert r == (if Kept(lines[0]) then [EscapeInvisibles(lines[0])] else []) + rest;
      forall k | 0 <= k < |r| ensures CleanedFrom(r[k], lines) {
        if k < off {
          assert Kept(lines[0]) && r[k] == EscapeInvisibles(lines[0]);
        } else {
          assert r[k] == rest[k - off];
          assert CleanedFrom(rest[k - off], lines[1..]);
          var j :| 0 <= j < |lines[1..]| && Kept(lines[1..][j]) && rest[k - off] == EscapeInvisibles(lines[1..][j]);
          assert lines[j + 1] == lines[1..][j];
          assert Kept(lines[j + 1]) && r[k] == EscapeInvisibles(lines[j + 1]);
        }
      }
    }
  }

  lemma {:induction false} KeptEscapedVisible(lines: seq<string>)
    ensures forall k | 0 <= k < |KeptEscaped(lines)| :: Visible(KeptEscaped(lines)[k])
  {
    if lines != [] {
      KeptEscapedVisible(lines[1..]);
      var r, rest := KeptEscaped(lines), KeptEscaped(lines[1..]);
      var off := if Kept(lines[0]) then 1 else 0;
      assert r == (if Kept(lines[0]) then [EscapeInvisibles(lines[0])] else []) + rest;
      EscapeInvisiblesVisible(lines[0]);
      forall k | 0 <= k < |r| ensures Visible(r[k]) {
        if k >= off {
          assert r[k] == rest[k - off];
        }
      }
    }
  }

  /**
   * What `JSON.stringify` makes of a value: a string, `undefined` (for a
   * function or a symbol), or an exception (for a circular structure or a
   * BigInt).
   */
  datatype Stringified = JsonText(text: string) | JsonUndefined | JsonThrows

  /**
   * The runtime's producers, parameters of the model. `createPatch(a, e)`
   * stands for `diff.createPatch('string', a, e)`, with `None` for an
   * `undefined` side and a `None` result where the library throws;
   * `includeStack` is `JUNIT_REPORT_STACK` being set.
   */
  datatype DiffConfig = DiffConfig(includeStack: bool, stringify: Value -> Stringified,
                                   createPatch: (Option<string>, Option<string>) -> Option<string>)

  /** A side handed to the diff library: its text, or `None` for `undefined`. */
  function SideArg(s: Stringified): Option<string> {
    if s.JsonText? then Some(s.text) else None
  }

  /** The actual side: a string as it is, any other value stringified. */
  function ActualText(err: TestError, stringify: Value -> Stringified): Stringified {
    if err.actual.Str? then JsonText(err.actual.s) else stringify(err.actual)
  }

  /** The expected side. A non-string expected value is replaced by the stringified ACTUAL value. */
  function ExpectedText(err: TestError, stringify: Value -> Stringified): Stringified {
    if err.expected.Str? then JsonText(err.expected.s) else stringify(err.actual)
  }

  /** The raw patch between the two sides; `None` when stringifying a side or the diff library throws. */
  function PatchOf(err: TestError, cfg: DiffConfig): Option<string> {
    var a := ActualText(err, cfg.stringify);
    if a.JsonThrows? then None
    else
      var e := ExpectedText(err, cfg.stringify);
      if e.JsonThrows? then None
      else cfg.createPatch(SideArg(a), SideArg(e))
  }

  /** The cleaned-up lines of `text` after its first `skip` lines, joined by line feeds. */
  function CleanedAfter(text: string, skip: nat): string {
    JoinLines(CleanLines(DropLines(SplitLines(text), skip)))
  }

  /**
   * `unifiedDiff(err)`, or `None` where it throws. The raw patch is kept in
   * front of its cleaned lines because the source appends with `+=`.
   */
  function UnifiedDiff(err: TestError, cfg: DiffConfig): Option<string>
  {
    var msg :=
      if Truthy(err.actual) && Truthy(err.expected) then
        match PatchOf(err, cfg)
        case None => None
        case Some(patch) => Some(patch + CleanedAfter(patch, 4))
      else Some("");
    if msg.None? then None
    else if cfg.includeStack && err.stack != "" then
      Some((if msg.value != "" then msg.value + "\n" else msg.value) + CleanedAfter(err.stack, 1))
    else msg
  }

  /**
   * The diagnostic throws exactly when both values are present and
   * stringifying a side or the diff library throws; the stack alone never
   * makes it throw.
   */
  lemma UnifiedDiffThrows(err: TestError, cfg: DiffConfig)
    ensures UnifiedDiff(err, cfg).None? <==>
      && Truthy(err.actual) && Truthy(err.expected)
      && (|| ActualText(err, cfg.stringify).JsonThrows?
          || ExpectedText(err, cfg.stringify).JsonThrows?
          || cfg.createPatch(SideArg(ActualText(err, cfg.stringify)), SideArg(ExpectedText(err, cfg.stringify))).None?)
  {
  }

  /** A function as the actual value reaches the diff library as `undefined` on both sides. */
  lemma UnifiedDiffUndefinedSides(err: TestError, cfg: DiffConfig)
    requires !err.actual.Str? && !err.expected.Str?
    requires cfg.stringify(err.actual) == JsonUndefined
    ensures PatchOf(err, cfg) == cfg.createPatch(None, None)
  {
  }

  /**
   * With both values present and a patch produced, the text begins with the
   * raw patch, hunk markers included, and goes on with the cleaned lines
   * after the header.
   */
  lemma UnifiedDiffKeepsRawPatch(err: TestError, cfg: DiffConfig)
    requires Truthy(err.actual) && Truthy(err.expected)
    ensures PatchOf(err, cfg).Some? ==> UnifiedDiff(err, cfg).Some?
    ensures PatchOf(err, cfg).Some? ==>
      var patch := PatchOf(err, cfg).value;
      var r := UnifiedDiff(err, cfg).value;
      |patch| <= |r| && r[..|patch|] == patch &&
      r[|patch|..|patch| + |CleanedAfter(patch, 4)|] == CleanedAfter(patch, 4)
  {
    if PatchOf(err, cfg).Some? {
      var patch := PatchOf(err, cfg).value;
      var msg := patch + CleanedAfter(patch, 4);
      assert msg[..|patch|] == patch;
      if cfg.includeStack && err.stack != "" {
        var r := (if msg != "" then msg + "\n" else msg) + CleanedAfter(err.stack, 1);
        assert r[..|msg|] == msg;
      }
    }
  }

  /** Without a complete pair of values and without an included stack, there is no diagnostic text. */
  lemma UnifiedDiffEmpty(err: TestError, cfg: DiffConfig)
    requires !(Truthy(err.actual) && Truthy(err.expected))
    requires !cfg.includeStack || err.stack == ""
    ensures UnifiedDiff(err, cfg) == Some("")
  {
  }

  /** A non-string expected value never reaches the diff: only the actual value is stringified. */
  lemma UnifiedDiffIgnoresNonStringExpected(err: TestError, other: Value, cfg: DiffConfig)
    requires !err.expected.Str? && Truthy(err.expected)
    requires !other.Str? && Truthy(other)
    ensures UnifiedDiff(err.(expected := other), cfg) == UnifiedDiff(err, cfg)
  {
  }
}
