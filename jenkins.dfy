/**
 * The `Jenkins` reporter: the closure state (`currentSuite`, the table `fd`
 * of open handles keyed by suite slug, the directory flag) and the handlers
 * of the runner's events. Files are modelled as append-only buffers indexed
 * by handle; opening a file hands out a fresh handle with an empty buffer.
 */
module Jenkins {
  import opened Wrappers
  import opened Text
  import opened Escape
  import opened Slug
  import opened Diff
  import opened Report

  type Handle = nat

  /** `out` with `s` appended to the buffer of `h`, or `out` itself when there is no handle. */
  function Appended(out: map<Handle, string>, h: Option<Handle>, s: string): (r: map<Handle, string>)
    requires h.Some? ==> h.value in out
    ensures r.Keys == out.Keys
    ensures h.None? ==> r == out
    ensures h.Some? ==> r[h.value] == out[h.value] + s
    ensures forall k | k in out && !(h.Some? && k == h.value) :: r[k] == out[k]
  {
    if h.Some? then out[h.value := out[h.value] + s] else out
  }

  lemma AppendedNothing(out: map<Handle, string>, h: Option<Handle>)
    requires h.Some? ==> h.value in out
    ensures Appended(out, h, "") == out
  {
    if h.Some? {
      assert out[h.value] + "" == out[h.value];
    }
  }

  /** Two appends in a row are one append of the concatenation. */
  lemma AppendedTwice(out: map<Handle, string>, h: Option<Handle>, a: string, b: string)
    requires h.Some? ==> h.value in out
    ensures Appended(Appended(out, h, a), h, b) == Appended(out, h, a + b)
  {
    if h.Some? {
      assert out[h.value] + a + b == out[h.value] + (a + b);
    }
  }

  /** Appending to an empty buffer leaves exactly the appended text. */
  lemma AppendedFresh(out: map<Handle, string>, h: Handle, s: string)
    requires h in out && out[h] == ""
    ensures Appended(out, Some(h), s) == out[h := s]
  {
    assert "" + s == s;
  }

  /** The handle registered for a slug, if any. */
  function HandleOf(fd: map<string, Handle>, id: string): Option<Handle> {
    if id in fd then Some(fd[id]) else None
  }

  /** The members every plain object `{}` inherits from `Object.prototype`. */
  const ObjectPrototypeNames: set<string> := {
    "constructor", "hasOwnProperty", "isPrototypeOf", "propertyIsEnumerable", "toString",
    "valueOf", "toLocaleString", "__proto__", "__defineGetter__", "__defineSetter__",
    "__lookupGetter__", "__lookupSetter__"
  }

  /** What `fd[id]` yields on the table, a plain object: an own entry, an inherited member, or `undefined`. */
  datatype FdEntry = Own(h: Handle) | Inherited | Missing

  function Lookup(fd: map<string, Handle>, id: string): (e: FdEntry)
    ensures e.Own? <==> HandleOf(fd, id).Some?
    ensures e.Own? ==> e.h == HandleOf(fd, id).value
    ensures e.Inherited? <==> id !in fd && id in ObjectPrototypeNames
  {
    if id in fd then Own(fd[id])
    else if id in ObjectPrototypeNames then Inherited
    else Missing
  }

  /**
   * The only inherited member a slug can name is `constructor`: the others
   * hold an upper-case letter or two underscores in a row.
   */
  lemma InheritedSlugIsConstructor(fd: map<string, Handle>, title: string)
    ensures Lookup(fd, SuiteSlug(title)).Inherited? ==> SuiteSlug(title) == "constructor"
  {
    var s := SuiteSlug(title);
    SuiteSlugShape(title);
    if s in ObjectPrototypeNames && s != "constructor" {
      PrototypeNameNotSlug(s);
    }
  }

  /** No inherited member other than `constructor` has the shape of a slug. */
  lemma PrototypeNameNotSlug(n: string)
    requires n in ObjectPrototypeNames && n != "constructor"
    ensures !SlugShaped(n)
  {
    if n[0] == '_' {
      assert n[1] == '_';
    } else if n == "hasOwnProperty" {
      assert n[3] == 'O';
    } else if n == "valueOf" {
      assert n[5] == 'O';
    } else if n == "propertyIsEnumerable" {
      assert n[8] == 'I';
    } else {
      assert n[2] == 'P' || n[2] == 'S' || n[2] == 'L';
    }
  }

  /**
   * Outside directory mode the table stays empty, so a suite titled
   * "Constructor" finds the inherited `Object` function under its slug.
   */
  lemma ConstructorSuiteInherits()
    ensures Lookup(map[], SuiteSlug("Constructor")).Inherited?
  {
    SuiteSlugConstructor();
  }

  /** The last handle below `n` opened on `name`, if any. */
  function LastOpened(fileName: map<Handle, string>, name: string, n: nat): (r: Option<Handle>)
    ensures r.None? ==> forall k | k < n && k in fileName :: fileName[k] != name
    ensures r.Some? ==> r.value < n && r.value in fileName && fileName[r.value] == name
    ensures r.Some? ==> forall k | r.value < k < n && k in fileName :: fileName[k] != name
  {
    if n == 0 then None
    else if n - 1 in fileName && fileName[n - 1] == name then Some(n - 1)
    else LastOpened(fileName, name, n - 1)
  }

  /**
   * The contents of the file `name` given the handles below `n`. Opening a
   * file with flag 'w' empties it, so the file holds the buffer of the last
   * handle opened on its name; what earlier handles on that name wrote is lost.
   */
  function FileContents(out: map<Handle, string>, fileName: map<Handle, string>, name: string, n: nat): Option<string>
  {
    match LastOpened(fileName, name, n)
    case None => None
    case Some(h) => if h in out then Some(out[h]) else None
  }

  /** The newest handle decides the file: it holds what that handle wrote. */
  lemma NewestHandleFile(out: map<Handle, string>, fileName: map<Handle, string>, name: string, h: Handle, s: string)
    requires forall k | k in fileName :: k < h
    ensures FileContents(out[h := s], fileName[h := name], name, h + 1) == Some(s)
  {
  }

  /**
   * A handle opened on a name that an earlier handle already wrote: the file
   * holds only what the new handle wrote, whatever the earlier one holds.
   */
  lemma ReopenReplaces(out: map<Handle, string>, fileName: map<Handle, string>, name: string,
                       earlier: Handle, h: Handle, s: string)
    requires fileName.Keys == out.Keys && forall k | k in out :: k < h
    requires earlier in out && earlier in fileName && fileName[earlier] == name
    ensures FileContents(out[h := s], fileName[h := name], name, h + 1) == Some(s)
    ensures FileContents(out, fileName, name, h).Some?
  {
    assert earlier < h;
  }

  /** The wrapper opened for every suite; an empty report name falls back to "Mocha Tests". */
  function SuitesOpenTag(reportName: string): string {
    "<testsuites name=\"" + (if reportName == "" then "Mocha Tests" else reportName) + "\">\n"
  }

  const SuitesCloseTag := "</testsuites>\n"

  /** An empty report name is the default name. */
  lemma DefaultReportName()
    ensures SuitesOpenTag("") == SuitesOpenTag("Mocha Tests")
  {
  }

  /**
   * A closed report file: the `<testsuites>` wrapper around the suite's
   * report, which sits right after the opening tag.
   */
  lemma ReportFileWrapped(reportName: string, r: SuiteRecord, elapsed: string, cfg: DiffConfig)
    ensures var f := SuitesOpenTag(reportName) + SuiteReport(r, elapsed, cfg) + SuitesCloseTag;
      && |f| >= 32
      && f[..18] == "<testsuites name=\"" && f[|f| - 14..] == "</testsuites>\n"
      && OccursAt(f, SuiteReport(r, elapsed, cfg), |SuitesOpenTag(reportName)|)
  {
    var head := SuitesOpenTag(reportName);
    var name := if reportName == "" then "Mocha Tests" else reportName;
    assert head == "<testsuites name=\"" + name + "\">\n";
    ConcatEnds("<testsuites name=\"", name, "\">\n");
    StartsAndEnds("<testsuites name=\"", head, SuiteReport(r, elapsed, cfg), SuitesCloseTag);
    OccursInMiddle(head, SuiteReport(r, elapsed, cfg), SuitesCloseTag);
  }

  /**
   * The buffers after `endSuite` closes `suite` (if any): its report and the
   * closing wrapper appended to the handle registered under its slug.
   */
  function ClosedOut(out: map<Handle, string>, fd: map<string, Handle>, suite: Option<SuiteRecord>,
                     elapsed: string, cfg: DiffConfig): (r: map<Handle, string>)
    requires suite.Some? && suite.value.id in fd ==> fd[suite.value.id] in out
    ensures r.Keys == out.Keys
    ensures forall h | h in out && (suite.None? || HandleOf(fd, suite.value.id) != Some(h)) :: r[h] == out[h]
    ensures suite.Some? && suite.value.id in fd ==>
      r[fd[suite.value.id]] == out[fd[suite.value.id]] + SuiteReport(suite.value, elapsed, cfg) + SuitesCloseTag
  {
    if suite.None? then out
    else Appended(out, HandleOf(fd, suite.value.id), SuiteReport(suite.value, elapsed, cfg) + SuitesCloseTag)
  }

  /** The opening tag of an emitted suite, in the pieces `genSuiteReport` writes. */
  lemma SuiteOpenPieces(suite: SuiteRecord, elapsed: string, testCount: nat, cfg: DiffConfig)
    requires testCount == TestCount(suite) > 0
    ensures SuiteOpen(SuiteXml(suite, elapsed, cfg).value) ==
      "<testsuite" + (" name=\"" + HtmlEscape(suite.title) + "\"") + (" tests=\"" + NatToString(testCount) + "\"")
      + (" failures=\"" + NatToString(suite.failures) + "\"")
      + (" skipped=\"" + NatToString(testCount - suite.failures - suite.passes) + "\"")
      + (" timestamp=\"" + suite.start + "\"") + (" time=\"" + elapsed + "\"") + ">\n"
  {
    SuiteXmlOf(suite, elapsed, cfg);
    var e := SuiteXml(suite, elapsed, cfg).value;
    assert e.name == HtmlEscape(suite.title) && e.tests == testCount && e.failures == suite.failures;
    assert e.skipped == testCount - suite.failures - suite.passes && e.timestamp == suite.start && e.time == elapsed;
  }

  /** The case of a recorded test, in the pieces the `forEach` callback writes. */
  lemma TestCasePieces(test: Test, suiteTitle: string, cfg: DiffConfig)
    ensures var head := "<testcase" + (" classname=\"" + ClassName(suiteTitle) + "\"")
                        + (" name=\"" + HtmlEscape(test.title) + "\"") + (" time=\"" + test.time + "\"");
      var body := BodyOf(test, cfg);
      RenderCase(CaseOf(test, suiteTitle, cfg)) ==
        if body == Aborted then head + ">\n" + "<failure message=\""
        else if body == DiffAborted then head + ">\n" + "<failure message=\"" + "\">\n"
        else if body == Failed then head + ">\n" + "<failure message=\"" + "\">\n" + "\n</failure>\n" + "</testcase>\n"
        else if body == Skipped then head + ">\n" + "<skipped/>\n" + "</testcase>\n"
        else head + "/>\n"
  {
    var c := TestCase(ClassName(suiteTitle), HtmlEscape(test.title), Some(test.time), BodyOf(test, cfg));
    assert CaseOf(test, suiteTitle, cfg) == c;
  }

  /** The synthesized hook-failure case, in the pieces `genSuiteReport` writes. */
  lemma HookCasePieces(title: string)
    ensures RenderCase(HookCase(title)) ==
      "<testcase" + (" classname=\"" + HtmlEscape(title) + "\"") + (" name=\"" + HtmlEscape(title) + " before\"")
      + ">\n" + "<failure message=\"Failed during before hook\"/>" + "</testcase>\n"
  {
    var esc := HtmlEscape(title);
    assert " name=\"" + (esc + " before") + "\"" == " name=\"" + esc + " before\"";
  }

  class Reporter {
    /** The report name, and the stack flag with the two foreign producers, fixed for the run. */
    const reportName: string
    const config: DiffConfig

    /** The resolved report directory, `JUNIT_REPORT_PATH` as the `start` handler leaves it. */
    var reportPath: Option<string>
    var isDirectory: bool
    var currentSuite: Option<SuiteRecord>
    var fd: map<string, Handle>
    /** The contents of every file opened so far, by handle. */
    var out: map<Handle, string>
    /** The file name each handle was opened on, relative to the report directory. */
    var fileName: map<Handle, string>
    var open: set<Handle>
    var nextHandle: nat

    /**
     * Handles in the table are exactly the open ones; only the open suite
     * can own one, under its own non-empty slug.
     */
    ghost predicate Valid()
      reads this
    {
      && open <= out.Keys
      && fileName.Keys == out.Keys
      && (forall h | h in out :: h < nextHandle)
      && open == fd.Values
      && "" !in fd
      && (currentSuite.None? ==> fd == map[])
      && (currentSuite.Some? ==> fd.Keys <= {currentSuite.value.id})
      && (forall h | h in open :: out[h] == SuitesOpenTag(reportName))
    }

    /** `h` is absent, or an open handle with a buffer. */
    ghost predicate CanWrite(h: Option<Handle>)
      reads this
    {
      h.Some? ==> h.value in open && h.value in out
    }

    constructor (reportName: string, config: DiffConfig)
      ensures Valid()
      ensures this.reportName == reportName && this.config == config
      ensures reportPath == None && !isDirectory && currentSuite == None && fd == map[] && out == map[] && open == {}
    {
      this.reportName := reportName;
      this.config := config;
      reportPath := None;
      isDirectory := false;
      currentSuite := None;
      fd := map[];
      out := map[];
      fileName := map[];
      open := {};
      nextHandle := 0;
    }

    /** At most one suite, and so at most one handle, is open at any time. */
    lemma AtMostOneOpen()
      requires Valid()
      ensures |fd| <= 1 && |open| <= 1
    {
      if currentSuite.Some? && currentSuite.value.id in fd {
        var id := currentSuite.value.id;
        assert fd == map[id := fd[id]];
        assert fd.Values == {fd[id]};
      }
    }

    /**
     * The `start` handler. `env` is `JUNIT_REPORT_PATH`; `isDir` says whether
     * a path exists and is a directory, `dirName` is `path.dirname`. A set
     * path that is not a directory stands for a file in its parent.
     */
    method OnStart(env: Option<string>, isDir: string -> bool, dirName: string -> string)
      requires Valid()
      modifies this`reportPath, this`isDirectory
      ensures Valid()
      ensures env.None? || env.value == "" ==> reportPath == env && isDirectory == old(isDirectory)
      ensures env.Some? && env.value != "" ==>
        && reportPath == Some(if isDir(env.value) then env.value else dirName(env.value))
        && isDirectory == (isDir(env.value) || isDir(dirName(env.value)))
    {
      reportPath := env;
      if env.Some? && env.value != "" {
        var path := env.value;
        if !isDir(path) {
          path := dirName(path);
        }
        reportPath := Some(path);
        isDirectory := isDir(path);
      }
    }

    /** `writeString`: appends to an open handle; without a handle nothing changes. */
    method WriteString(s: string, h: Option<Handle>)
      requires CanWrite(h)
      modifies this`out
      ensures out == Appended(old(out), h, s)
      ensures h.None? ==> out == old(out)
    {
      if h.Some? {
        out := out[h.value := out[h.value] + s];
      }
    }

    /** The `forEach` callback of `genSuiteReport`: writes one test's case; `threw` when the test has no error object or its diagnostic throws. */
    method WriteTestCase(test: Test, suiteTitle: string, h: Option<Handle>) returns (threw: bool)
      requires CanWrite(h)
      modifies this`out
      ensures out == Appended(old(out), h, RenderCase(CaseOf(test, suiteTitle, config)))
      ensures threw <==> Throws(BodyOf(test, config))
    {
      ghost var out0 := out;
      WriteString("<testcase", h);
      var p1 := " classname=\"" + ClassName(suiteTitle) + "\"";
      WriteString(p1, h);
      AppendedTwice(out0, h, "<testcase", p1);
      var p2 := " name=\"" + HtmlEscape(test.title) + "\"";
      WriteString(p2, h);
      AppendedTwice(out0, h, "<testcase" + p1, p2);
      var p3 := " time=\"" + test.time + "\"";
      WriteString(p3, h);
      AppendedTwice(out0, h, "<testcase" + p1 + p2, p3);
      ghost var head := "<testcase" + p1 + p2 + p3;
      TestCasePieces(test, suiteTitle, config);
      ghost var body := BodyOf(test, config);
      if test.state == Some("failed") {
        WriteString(">\n", h);
        AppendedTwice(out0, h, head, ">\n");
        WriteString("<failure message=\"", h);
        AppendedTwice(out0, h, head + ">\n", "<failure message=\"");
        if test.err.None? {
          // reading `test.err.message` throws a TypeError
          assert body == Aborted;
          return true;
        }
        var err := test.err.value;
        if err.message != "" {
          // the handle is not passed: the message is never written
          WriteString(HtmlEscape(err.message), None);
        }
        WriteString("\">\n", h);
        AppendedTwice(out0, h, head + ">\n" + "<failure message=\"", "\">\n");
        var diagnostic := UnifiedDiff(err, config);
        if diagnostic.None? {
          // stringifying a value or the diff library threw
          assert body == DiffAborted;
          return true;
        }
        // the handle is not passed: the diagnostic is never written
        WriteString(HtmlEscape(diagnostic.value), None);
        assert body == Failed;
        WriteString("\n</failure>\n", h);
        AppendedTwice(out0, h, head + ">\n" + "<failure message=\"" + "\">\n", "\n</failure>\n");
        WriteString("</testcase>\n", h);
        AppendedTwice(out0, h, head + ">\n" + "<failure message=\"" + "\">\n" + "\n</failure>\n", "</testcase>\n");
      } else if test.state == None {
        WriteString(">\n", h);
        AppendedTwice(out0, h, head, ">\n");
        assert body == Skipped;
        WriteString("<skipped/>\n", h);
        AppendedTwice(out0, h, head + ">\n", "<skipped/>\n");
        WriteString("</testcase>\n", h);
        AppendedTwice(out0, h, head + ">\n" + "<skipped/>\n", "</testcase>\n");
      } else {
        assert body == SelfClosed;
        WriteString("/>\n", h);
        AppendedTwice(out0, h, head, "/>\n");
      }
      threw := false;
    }

    /** The opening `<testsuite>` tag of an emitted suite, written attribute by attribute. */
    method WriteSuiteOpen(suite: SuiteRecord, elapsed: string, testCount: nat, h: Option<Handle>)
      requires CanWrite(h)
      requires testCount == TestCount(suite) > 0
      modifies this`out
      ensures out == Appended(old(out), h, SuiteOpen(SuiteXml(suite, elapsed, config).value))
    {
      ghost var out0 := out;
      WriteString("<testsuite", h);
      var p1 := " name=\"" + HtmlEscape(suite.title) + "\"";
      WriteString(p1, h);
      AppendedTwice(out0, h, "<testsuite", p1);
      var p2 := " tests=\"" + NatToString(testCount) + "\"";
      WriteString(p2, h);
      AppendedTwice(out0, h, "<testsuite" + p1, p2);
      var p3 := " failures=\"" + NatToString(suite.failures) + "\"";
      WriteString(p3, h);
      AppendedTwice(out0, h, "<testsuite" + p1 + p2, p3);
      var p4 := " skipped=\"" + NatToString(testCount - suite.failures - suite.passes) + "\"";
      WriteString(p4, h);
      AppendedTwice(out0, h, "<testsuite" + p1 + p2 + p3, p4);
      var p5 := " timestamp=\"" + suite.start + "\"";
      WriteString(p5, h);
      AppendedTwice(out0, h, "<testsuite" + p1 + p2 + p3 + p4, p5);
      var p6 := " time=\"" + elapsed + "\"";
      WriteString(p6, h);
      AppendedTwice(out0, h, "<testsuite" + p1 + p2 + p3 + p4 + p5, p6);
      WriteString(">\n", h);
      AppendedTwice(out0, h, "<testsuite" + p1 + p2 + p3 + p4 + p5 + p6, ">\n");
      SuiteOpenPieces(suite, elapsed, testCount, config);
    }

    /** The synthesized case of a suite that failed in a before hook. */
    method WriteHookCase(suite: SuiteRecord, h: Option<Handle>)
      requires CanWrite(h)
      modifies this`out
      ensures out == Appended(old(out), h, RenderCase(HookCase(suite.title)))
    {
      ghost var out0 := out;
      WriteString("<testcase", h);
      var p1 := " classname=\"" + HtmlEscape(suite.title) + "\"";
      WriteString(p1, h);
      AppendedTwice(out0, h, "<testcase", p1);
      var p2 := " name=\"" + HtmlEscape(suite.title) + " before\"";
      WriteString(p2, h);
      AppendedTwice(out0, h, "<testcase" + p1, p2);
      WriteString(">\n", h);
      AppendedTwice(out0, h, "<testcase" + p1 + p2, ">\n");
      var p3 := "<failure message=\"Failed during before hook\"/>";
      WriteString(p3, h);
      AppendedTwice(out0, h, "<testcase" + p1 + p2 + ">\n", p3);
      WriteString("</testcase>\n", h);
      AppendedTwice(out0, h, "<testcase" + p1 + p2 + ">\n" + p3, "</testcase>\n");
      HookCasePieces(suite.title);
    }

    /** The `forEach` over the recorded tests: their cases in order, stopping at the first that throws. */
    method WriteTestCases(suite: SuiteRecord, h: Option<Handle>) returns (threw: bool)
      requires CanWrite(h)
      requires !HookFailure(suite)
      modifies this`out
      ensures out == Appended(old(out), h, RenderCases(CasesOf(suite, config)))
      ensures threw <==> AnyThrows(CasesOf(suite, config))
    {
      ghost var cs := CasesOf(suite, config);
      assert RenderCases(cs[..0]) == "" by {
        assert cs[..0] == [];
      }
      AppendedNothing(out, h);
      var i := 0;
      while i < |suite.tests|
        invariant 0 <= i <= |suite.tests| == |cs|
        invariant CanWrite(h) && out.Keys == old(out).Keys
        invariant !AnyThrows(cs[..i])
        invariant out == Appended(old(out), h, RenderCases(cs[..i]))
      {
        threw := WriteTestCase(suite.tests[i], suite.title, h);
        AppendedTwice(old(out), h, RenderCases(cs[..i]), RenderCase(cs[i]));
        TakeSnoc(cs, i);
        if threw {
          RenderCasesStop(cs[..i], cs[i], cs[i + 1..]);
          return;
        }
        RenderCasesAppend(cs[..i], cs[i]);
        NoAbortAppend(cs[..i], cs[i]);
        i := i + 1;
      }
      assert cs[..i] == cs;
      threw := false;
    }

    /** `genSuiteReport`: writes the suite's report to `h`; `threw` when writing stops at an exception. */
    method GenSuiteReport(suite: SuiteRecord, elapsed: string, h: Option<Handle>) returns (threw: bool)
      requires CanWrite(h)
      modifies this`out
      ensures out == Appended(old(out), h, SuiteReport(suite, elapsed, config))
      ensures threw <==> ReportThrows(suite, config)
    {
      var testCount := suite.failures + suite.passes;
      if |suite.tests| > testCount {
        testCount := |suite.tests|;
      }
      if testCount == 0 {
        AppendedNothing(out, h);
        return false;
      }
      ghost var out0 := out;
      ghost var cs := CasesOf(suite, config);
      SuiteXmlOf(suite, elapsed, config);
      SuiteReportParts(suite, elapsed, config);
      ghost var e := SuiteXml(suite, elapsed, config).value;
      WriteSuiteOpen(suite, elapsed, testCount, h);
      if |suite.tests| == 0 && suite.failures > 0 {
        WriteHookCase(suite, h);
        HookCaseParts(suite, config);
        threw := false;
      } else {
        threw := WriteTestCases(suite, h);
        AbortedIffThrows(suite, elapsed, config);
      }
      AppendedTwice(out0, h, SuiteOpen(e), RenderCases(cs));
      if threw {
        assert SuiteOpen(e) + RenderCases(cs) + "" == SuiteOpen(e) + RenderCases(cs);
        return;
      }
      WriteString("</testsuite>\n", h);
      AppendedTwice(out0, h, SuiteOpen(e) + RenderCases(cs), "</testsuite>\n");
    }

    /** `fs.openSync(name, 'w')`: a fresh handle on an empty file. */
    method OpenFile(name: string) returns (h: Handle)
      requires Valid()
      modifies this`out, this`fileName, this`nextHandle
      ensures h == old(nextHandle) && nextHandle == h + 1
      ensures out == old(out)[h := ""] && fileName == old(fileName)[h := name]
    {
      h := nextHandle;
      nextHandle := nextHandle + 1;
      out := out[h := ""];
      fileName := fileName[h := name];
    }

    /** The directory-mode branch of `startSuite`: opens `<slug>.xml` and registers its handle under the slug. */
    method OpenSuiteFile(slug: string) returns (h: Handle)
      requires Valid() && currentSuite.None?
      modifies this`fd, this`out, this`fileName, this`open, this`nextHandle
      ensures h == old(nextHandle) && nextHandle == h + 1
      ensures fd == map[slug := h] && open == {h} && fd.Values == open
      ensures out == old(out)[h := ""] && fileName == old(fileName)[h := slug + ".xml"]
      ensures forall k | k in out :: k < nextHandle
    {
      assert fd == map[];
      h := OpenFile(slug + ".xml");
      fd := map[slug := h];
      open := {h};
      assert fd[slug] == h;
    }

    /** `startSuite`: opens the new suite, and in directory mode a fresh file named after its slug. */
    method StartSuite(title: string, start: string)
      requires Valid()
      requires currentSuite.None?
      modifies this`fd, this`out, this`fileName, this`open, this`nextHandle, this`currentSuite
      ensures Valid()
      ensures currentSuite == Some(SuiteRecord(SuiteSlug(title), title, [], start, 0, 0))
      ensures isDirectory && SuiteSlug(title) != "" ==>
        && nextHandle == old(nextHandle) + 1
        && fd == map[SuiteSlug(title) := old(nextHandle)] && open == {old(nextHandle)}
        && out == old(out)[old(nextHandle) := SuitesOpenTag(reportName)]
        && fileName == old(fileName)[old(nextHandle) := SuiteSlug(title) + ".xml"]
        && FileContents(out, fileName, SuiteSlug(title) + ".xml", nextHandle) == Some(SuitesOpenTag(reportName))
      ensures !(isDirectory && SuiteSlug(title) != "") ==>
        && nextHandle == old(nextHandle) && fd == map[] && open == {}
        && out == old(out) && fileName == old(fileName)
    {
      var slug := SuiteSlug(title);
      OpenSuite(slug, title, start);
    }

    /** The body of `startSuite` once the slug of the title is computed. */
    method OpenSuite(slug: string, title: string, start: string)
      requires Valid()
      requires currentSuite.None?
      modifies this`fd, this`out, this`fileName, this`open, this`nextHandle, this`currentSuite
      ensures Valid()
      ensures currentSuite == Some(SuiteRecord(slug, title, [], start, 0, 0))
      ensures isDirectory && slug != "" ==>
        && nextHandle == old(nextHandle) + 1
        && fd == map[slug := old(nextHandle)] && open == {old(nextHandle)}
        && out == old(out)[old(nextHandle) := SuitesOpenTag(reportName)]
        && fileName == old(fileName)[old(nextHandle) := slug + ".xml"]
        && FileContents(out, fileName, slug + ".xml", nextHandle) == Some(SuitesOpenTag(reportName))
      ensures !(isDirectory && slug != "") ==>
        && nextHandle == old(nextHandle) && fd == map[] && open == {}
        && out == old(out) && fileName == old(fileName)
    {
      var currentFd: Option<Handle> := None;
      if isDirectory && slug != "" {
        var h := OpenSuiteFile(slug);
        currentFd := Some(h);
      } else {
        assert fd == map[] && open == {};
      }
      if currentFd.Some? {
        AppendedFresh(out, currentFd.value, SuitesOpenTag(reportName));
      }
      WriteString(SuitesOpenTag(reportName), currentFd);
      currentSuite := Some(SuiteRecord(slug, title, [], start, 0, 0));
      if currentFd.Some? {
        assert open == {currentFd.value} && out[currentFd.value] == SuitesOpenTag(reportName);
        NewestHandleFile(old(out), old(fileName), slug + ".xml", old(nextHandle), SuitesOpenTag(reportName));
      }
    }

    /**
     * `endSuite`: closes the open suite, if any. Its report and the closing
     * wrapper go to its handle, even when writing the report throws; the
     * handle leaves the table and is closed. `threw` when the slug finds an
     * inherited member of the table instead of a handle: every write to it
     * throws, and the one of the closing wrapper is not caught.
     */
    method EndSuite(elapsed: string) returns (threw: bool)
      requires Valid()
      modifies this`fd, this`out, this`open, this`currentSuite
      ensures Valid()
      ensures currentSuite == None && fd == map[] && open == {}
      ensures threw <==> old(currentSuite).Some? && Lookup(old(fd), old(currentSuite).value.id).Inherited?
      ensures threw ==> out == old(out)
      ensures out == ClosedOut(old(out), old(fd), old(currentSuite), elapsed, config)
      ensures old(currentSuite).Some? && old(currentSuite).value.id in old(fd) ==>
        out[old(fd)[old(currentSuite).value.id]]
          == SuitesOpenTag(reportName) + SuiteReport(old(currentSuite).value, elapsed, config) + SuitesCloseTag
    {
      threw := false;
      if currentSuite.Some? {
        var tempSuite := currentSuite.value;
        currentSuite := None;
        var entry := Lookup(fd, tempSuite.id);
        var currentFd := if entry.Own? then Some(entry.h) else None;
        if currentFd.Some? {
          assert fd[tempSuite.id] in fd.Values;
        }
        // `delete` removes an own entry only
        fd := fd - {tempSuite.id};
        assert fd == map[];
        if entry.Inherited? {
          // `fs.writeSync` rejects the inherited function: inside `genSuiteReport` the
          // exception is caught, the write of the closing wrapper lets it escape
          assert open == {};
          return true;
        }
        ghost var out0 := out;
        var reportThrew := GenSuiteReport(tempSuite, elapsed, currentFd);
        // an exception from genSuiteReport is caught; the wrapper is closed regardless
        WriteString(SuitesCloseTag, currentFd);
        AppendedTwice(out0, currentFd, SuiteReport(tempSuite, elapsed, config), SuitesCloseTag);
        if currentFd.Some? {
          open := open - {currentFd.value};
        }
        assert open == {};
      }
    }

    /** The `test end` handler (`addTestToSuite`): records the test in the open suite; `ok` is false where the source throws for want of one. */
    method OnTestEnd(test: Test) returns (ok: bool)
      requires Valid()
      modifies this`currentSuite
      ensures Valid()
      ensures ok <==> old(currentSuite).Some?
      ensures ok ==> currentSuite == Some(old(currentSuite).value.(tests := old(currentSuite).value.tests + [test]))
      ensures !ok ==> currentSuite == old(currentSuite)
    {
      if currentSuite.None? {
        return false;
      }
      currentSuite := Some(currentSuite.value.(tests := currentSuite.value.tests + [test]));
      ok := true;
    }

    /** The `pass` handler: counts a pass in the open suite; `ok` is false where the source throws. */
    method OnPass() returns (ok: bool)
      requires Valid()
      modifies this`currentSuite
      ensures Valid()
      ensures ok <==> old(currentSuite).Some?
      ensures ok ==> currentSuite == Some(old(currentSuite).value.(passes := old(currentSuite).value.passes + 1))
      ensures !ok ==> currentSuite == old(currentSuite)
    {
      if currentSuite.None? {
        return false;
      }
      currentSuite := Some(currentSuite.value.(passes := currentSuite.value.passes + 1));
      ok := true;
    }

    /** The `fail` handler: counts a failure in the open suite; `n` is the new count, the number it prints. */
    method OnFail() returns (ok: bool, n: nat)
      requires Valid()
      modifies this`currentSuite
      ensures Valid()
      ensures ok <==> old(currentSuite).Some?
      ensures ok ==> (n == old(currentSuite).value.failures + 1
                      && currentSuite == Some(old(currentSuite).value.(failures := n)))
      ensures !ok ==> currentSuite == old(currentSuite) && n == 0
    {
      if currentSuite.None? {
        return false, 0;
      }
      n := currentSuite.value.failures + 1;
      currentSuite := Some(currentSuite.value.(failures := n));
      ok := true;
    }

    /** The `pending` handler: only prints; no reporter state changes. */
    method OnPending(test: Test)
      requires Valid()
      ensures Valid()
      ensures unchanged(this)
    {
    }

    /**
     * The `suite` handler: closes the open suite, if any, then opens the new
     * one. `threw` when closing throws; the new suite is then never opened.
     */
    method OnSuite(title: string, start: string, elapsed: string) returns (threw: bool)
      requires Valid()
      modifies this`fd, this`out, this`fileName, this`open, this`nextHandle, this`currentSuite
      ensures Valid()
      ensures threw <==> old(currentSuite).Some? && Lookup(old(fd), old(currentSuite).value.id).Inherited?
      ensures threw ==>
        && currentSuite == None && fd == map[] && open == {}
        && out == old(out) && fileName == old(fileName) && nextHandle == old(nextHandle)
      ensures !threw ==> currentSuite == Some(SuiteRecord(SuiteSlug(title), title, [], start, 0, 0))
      ensures !threw && isDirectory && SuiteSlug(title) != "" ==>
        && nextHandle == old(nextHandle) + 1
        && fd == map[SuiteSlug(title) := old(nextHandle)] && open == {old(nextHandle)}
        && out == ClosedOut(old(out), old(fd), old(currentSuite), elapsed, config)[old(nextHandle) := SuitesOpenTag(reportName)]
        && fileName == old(fileName)[old(nextHandle) := SuiteSlug(title) + ".xml"]
        && FileContents(out, fileName, SuiteSlug(title) + ".xml", nextHandle) == Some(SuitesOpenTag(reportName))
      ensures !threw && !(isDirectory && SuiteSlug(title) != "") ==>
        && nextHandle == old(nextHandle) && fd == map[] && open == {}
        && out == ClosedOut(old(out), old(fd), old(currentSuite), elapsed, config) && fileName == old(fileName)
    {
      threw := false;
      if currentSuite.Some? {
        threw := EndSuite(elapsed);
        if threw {
          return;
        }
      }
      StartSuite(title, start);
    }

    /**
     * The `end` handler: closes the open suite, if any; afterwards no file is
     * open. `threw` when closing throws.
     */
    method OnEnd(elapsed: string) returns (threw: bool)
      requires Valid()
      modifies this`fd, this`out, this`open, this`currentSuite
      ensures Valid()
      ensures currentSuite == None && fd == map[] && open == {}
      ensures threw <==> old(currentSuite).Some? && Lookup(old(fd), old(currentSuite).value.id).Inherited?
      ensures out == ClosedOut(old(out), old(fd), old(currentSuite), elapsed, config)
    {
      threw := false;
      if currentSuite.Some? {
        threw := EndSuite(elapsed);
      }
    }
  }
}
