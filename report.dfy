/**
 * The suite report: what `genSuiteReport` writes for one closed suite. The
 * suite is first described as a `<testsuite>` element with its `<testcase>`
 * children (`SuiteXml`), which states the counts, the hook-failure case and
 * the per-test cases; `RenderSuite` then gives the exact text in the order
 * the source writes it.
 */
module Report {
  import opened Wrappers
  import opened Text
  import opened Escape
  import opened Diff

  /**
   * A completed test as the runner hands it over. `time` is the rendered
   * `duration / 1000`; `state` is `None` when the runner left it undefined.
   */
  datatype Test = Test(title: string, time: string, state: Option<string>, err: Option<TestError>)

  /**
   * The open suite: its slug, its full title, the tests completed so far in
   * completion order, its start time (rendered by `toUTCString`) and the
   * counters bumped by the `fail` and `pass` events.
   */
  datatype SuiteRecord = SuiteRecord(id: string, title: string, tests: seq<Test>, start: string,
                                     failures: nat, passes: nat)

  /** `max(tests.length, failures + passes)`. */
  function TestCount(r: SuiteRecord): (n: nat)
    ensures n >= |r.tests| && n >= r.failures + r.passes
    ensures n == |r.tests| || n == r.failures + r.passes
  {
    if |r.tests| > r.failures + r.passes then |r.tests| else r.failures + r.passes
  }

  /** The default `getClassName`: the escaped full title of the open suite. */
  function ClassName(suiteTitle: string): string {
    HtmlEscape(suiteTitle)
  }

  /** What a `<testcase>` contains. */
  datatype CaseBody =
    | SelfClosed   // any state other than "failed" and undefined
    | Skipped      // state undefined
    | Failed       // state "failed"
    | Aborted      // state "failed" without an error object: reading its message throws
    | DiffAborted  // state "failed" with an error whose diagnostic throws
    | BeforeHook   // the synthesized case of a suite that failed in a before hook

  datatype TestCase = TestCase(classname: string, name: string, time: Option<string>, body: CaseBody)

  datatype SuiteElement = SuiteElement(name: string, tests: nat, failures: nat, skipped: nat,
                                       timestamp: string, time: string, cases: seq<TestCase>)

  /** The bodies whose writing throws part-way. */
  predicate Throws(b: CaseBody) {
    b == Aborted || b == DiffAborted
  }

  function BodyOf(t: Test, cfg: DiffConfig): CaseBody {
    if t.state == Some("failed") then
      if t.err.None? then Aborted
      else if UnifiedDiff(t.err.value, cfg).None? then DiffAborted
      else Failed
    else if t.state == None then Skipped
    else SelfClosed
  }

  function CaseOf(t: Test, suiteTitle: string, cfg: DiffConfig): TestCase {
    TestCase(ClassName(suiteTitle), HtmlEscape(t.title), Some(t.time), BodyOf(t, cfg))
  }

  function HookCase(suiteTitle: string): TestCase {
    TestCase(HtmlEscape(suiteTitle), HtmlEscape(suiteTitle) + " before", None, BeforeHook)
  }

  /** True when the suite died in a before hook: failures counted, no test completed. */
  predicate HookFailure(r: SuiteRecord) {
    |r.tests| == 0 && r.failures > 0
  }

  function CasesOf(r: SuiteRecord, cfg: DiffConfig): seq<TestCase> {
    if HookFailure(r) then [HookCase(r.title)]
    else seq(|r.tests|, i requires 0 <= i < |r.tests| => CaseOf(r.tests[i], r.title, cfg))
  }

  /** The element for a closed suite; `None` when the suite is suppressed. `elapsed` is the rendered duration. */
  function SuiteXml(r: SuiteRecord, elapsed: string, cfg: DiffConfig): Option<SuiteElement> {
    var n := TestCount(r);
    if n == 0 then None
    else Some(SuiteElement(HtmlEscape(r.title), n, r.failures, n - r.failures - r.passes,
                           r.start, elapsed, CasesOf(r, cfg)))
  }

  /** The opening of a `<testcase>`, up to its last attribute, grouped as the source writes it. */
  function CaseOpen(c: TestCase): string {
    var named := "<testcase" + (" classname=\"" + c.classname + "\"") + (" name=\"" + c.name + "\"");
    if c.time.Some? then named + (" time=\"" + c.time.value + "\"") else named
  }

  /** The text written for one case. For a throwing body the text stops where the exception is thrown. */
  function RenderCase(c: TestCase): string {
    match c.body
    case SelfClosed => CaseOpen(c) + "/>\n"
    case Skipped => CaseOpen(c) + ">\n" + "<skipped/>\n" + "</testcase>\n"
    case Failed => CaseOpen(c) + ">\n" + "<failure message=\"" + "\">\n" + "\n</failure>\n" + "</testcase>\n"
    case Aborted => CaseOpen(c) + ">\n" + "<failure message=\""
    case DiffAborted => CaseOpen(c) + ">\n" + "<failure message=\"" + "\">\n"
    case BeforeHook => CaseOpen(c) + ">\n" + "<failure message=\"Failed during before hook\"/>" + "</testcase>\n"
  }

  /** True when one of the cases throws while it is written. */
  predicate AnyThrows(cs: seq<TestCase>) {
    exists i | 0 <= i < |cs| :: Throws(cs[i].body)
  }

  /** The cases in order, up to and including the first that throws. */
  function RenderCases(cs: seq<TestCase>): string {
    if cs == [] then ""
    else RenderCase(cs[0]) + (if Throws(cs[0].body) then "" else RenderCases(cs[1..]))
  }

  function SuiteOpen(e: SuiteElement): string {
    "<testsuite" + (" name=\"" + e.name + "\"") + (" tests=\"" + NatToString(e.tests) + "\"")
    + (" failures=\"" + NatToString(e.failures) + "\"") + (" skipped=\"" + NatToString(e.skipped) + "\"")
    + (" timestamp=\"" + e.timestamp + "\"") + (" time=\"" + e.time + "\"") + ">\n"
  }

  function RenderSuite(e: SuiteElement): string {
    SuiteOpen(e) + RenderCases(e.cases) + (if AnyThrows(e.cases) then "" else "</testsuite>\n")
  }

  /** Everything `genSuiteReport` writes for a suite before it returns or throws. */
  function SuiteReport(r: SuiteRecord, elapsed: string, cfg: DiffConfig): string {
    match SuiteXml(r, elapsed, cfg)
    case None => ""
    case Some(e) => RenderSuite(e)
  }

  /** True when writing the report of `r` throws: a failed test without an error object, or whose diagnostic throws. */
  predicate ReportThrows(r: SuiteRecord, cfg: DiffConfig) {
    exists i | 0 <= i < |r.tests| :: Throws(BodyOf(r.tests[i], cfg))
  }

  /** The element of a suite with tests: its escaped title, its counters and its cases. */
  lemma SuiteXmlOf(r: SuiteRecord, elapsed: string, cfg: DiffConfig)
    requires TestCount(r) > 0
    ensures SuiteXml(r, elapsed, cfg) == Some(SuiteElement(HtmlEscape(r.title), TestCount(r), r.failures,
                                                      TestCount(r) - r.failures - r.passes, r.start, elapsed, CasesOf(r, cfg)))
  {
  }

  /** An emitted suite's element and text, unfolded into the parts `genSuiteReport` writes. */
  lemma SuiteReportParts(r: SuiteRecord, elapsed: string, cfg: DiffConfig)
    requires TestCount(r) > 0
    ensures SuiteXml(r, elapsed, cfg).Some?
    ensures SuiteReport(r, elapsed, cfg) == SuiteOpen(SuiteXml(r, elapsed, cfg).value) + RenderCases(CasesOf(r, cfg))
                                       + (if AnyThrows(CasesOf(r, cfg)) then "" else "</testsuite>\n")
  {
    SuiteXmlOf(r, elapsed, cfg);
    var e := SuiteXml(r, elapsed, cfg).value;
    calc {
      SuiteReport(r, elapsed, cfg);
      RenderSuite(e);
      SuiteOpen(e) + RenderCases(e.cases) + (if AnyThrows(e.cases) then "" else "</testsuite>\n");
    }
  }

  /** The cases of a suite that failed in a before hook: the one synthesized case, which does not throw. */
  lemma HookCaseParts(r: SuiteRecord, cfg: DiffConfig)
    requires HookFailure(r)
    ensures CasesOf(r, cfg) == [HookCase(r.title)]
    ensures RenderCases(CasesOf(r, cfg)) == RenderCase(HookCase(r.title))
    ensures !AnyThrows(CasesOf(r, cfg)) && !ReportThrows(r, cfg)
  {
    assert [HookCase(r.title)][1..] == [];
  }

  /** Writing the cases throws exactly when a failed test has no error object, or its diagnostic throws. */
  lemma AbortedIffThrows(r: SuiteRecord, elapsed: string, cfg: DiffConfig)
    requires !HookFailure(r)
    ensures AnyThrows(CasesOf(r, cfg)) <==> ReportThrows(r, cfg)
  {
    var cs := CasesOf(r, cfg);
    if ReportThrows(r, cfg) {
      var i :| 0 <= i < |r.tests| && Throws(BodyOf(r.tests[i], cfg));
      assert Throws(cs[i].body);
    }
  }

  /** The opening tag starts with its element name. */
  lemma SuiteOpenStart(e: SuiteElement)
    ensures |SuiteOpen(e)| >= 10 && SuiteOpen(e)[..10] == "<testsuite"
  {
    var rest := SuiteOpen(e)[10..];
    assert SuiteOpen(e) == "<testsuite" + rest + "";
    ConcatEnds("<testsuite", rest, "");
  }

  /** A report that does not throw is one complete `<testsuite>` element. */
  lemma SuiteReportEnclosed(r: SuiteRecord, elapsed: string, cfg: DiffConfig)
    requires SuiteXml(r, elapsed, cfg).Some? && !ReportThrows(r, cfg)
    ensures var t := SuiteReport(r, elapsed, cfg);
      |t| >= 23 && t[..10] == "<testsuite" && t[|t| - 13..] == "</testsuite>\n"
  {
    SuiteXmlOf(r, elapsed, cfg);
    SuiteReportParts(r, elapsed, cfg);
    var e := SuiteXml(r, elapsed, cfg).value;
    if HookFailure(r) {
      HookCaseParts(r, cfg);
    } else {
      AbortedIffThrows(r, elapsed, cfg);
    }
    var head := SuiteOpen(e);
    var body := RenderCases(e.cases);
    assert SuiteReport(r, elapsed, cfg) == head + body + "</testsuite>\n";
    SuiteOpenStart(e);
    StartsAndEnds("<testsuite", head, body, "</testsuite>\n");
  }

  /** Nothing is written for a suite exactly when it has no tests, no failures and no passes. */
  lemma SuppressedIffEmpty(r: SuiteRecord, elapsed: string, cfg: DiffConfig)
    ensures SuiteXml(r, elapsed, cfg) == None <==> (|r.tests| == 0 && r.failures == 0 && r.passes == 0)
    ensures SuiteReport(r, elapsed, cfg) == "" <==> (|r.tests| == 0 && r.failures == 0 && r.passes == 0)
  {
    if SuiteXml(r, elapsed, cfg).Some? {
      var e := SuiteXml(r, elapsed, cfg).value;
      assert RenderSuite(e)[0] == '<';
    }
  }

  /** The counters of an emitted suite: `skipped` is what the count leaves after failures and passes, never negative. */
  lemma SuiteCounts(r: SuiteRecord, elapsed: string, cfg: DiffConfig)
    requires SuiteXml(r, elapsed, cfg).Some?
    ensures var e := SuiteXml(r, elapsed, cfg).value;
      e.tests == TestCount(r) > 0 && e.failures == r.failures
      && e.skipped + r.failures + r.passes == e.tests
      && e.tests >= |r.tests|
  {
  }

  /** A suite that failed in a before hook gets exactly one synthesized case, and no per-test cases. */
  lemma HookFailureCase(r: SuiteRecord, elapsed: string, cfg: DiffConfig)
    requires HookFailure(r)
    ensures SuiteXml(r, elapsed, cfg).Some?
    ensures var e := SuiteXml(r, elapsed, cfg).value;
      |e.cases| == 1
      && e.cases[0].classname == HtmlEscape(r.title)
      && e.cases[0].name == HtmlEscape(r.title) + " before"
      && e.cases[0].body == BeforeHook
  {
    HookCaseParts(r, cfg);
  }

  /** The report of such a suite carries the fixed before-hook failure marker. */
  lemma HookFailureText(r: SuiteRecord, elapsed: string, cfg: DiffConfig)
    requires HookFailure(r)
    ensures exists i :: OccursAt(SuiteReport(r, elapsed, cfg), "<failure message=\"Failed during before hook\"/>", i)
  {
    HookCaseParts(r, cfg);
    SuiteReportParts(r, elapsed, cfg);
    var e := SuiteXml(r, elapsed, cfg).value;
    var c := HookCase(r.title);
    var tag := "<failure message=\"Failed during before hook\"/>";
    HookCaseText(r.title);
    var x := SuiteOpen(e) + (CaseOpen(c) + ">\n");
    var y := "</testcase>\n" + "</testsuite>\n";
    assert SuiteReport(r, elapsed, cfg) == SuiteOpen(e) + (CaseOpen(c) + ">\n" + tag + "</testcase>\n") + "</testsuite>\n";
    Regroup(SuiteOpen(e), CaseOpen(c) + ">\n", tag, "</testcase>\n", "</testsuite>\n");
    OccursInMiddle(x, tag, y);
  }

  /** The synthesized case: its opening tag, then the fixed failure marker. */
  lemma HookCaseText(title: string)
    ensures RenderCase(HookCase(title)) ==
      CaseOpen(HookCase(title)) + ">\n" + "<failure message=\"Failed during before hook\"/>" + "</testcase>\n"
  {
  }

  /**
   * Otherwise there is one case per recorded test, in completion order: the
   * escaped title, the suite's class name, and a body chosen by the state.
   */
  lemma CasesFollowTests(r: SuiteRecord, elapsed: string, cfg: DiffConfig)
    requires SuiteXml(r, elapsed, cfg).Some? && !HookFailure(r)
    ensures var cs := SuiteXml(r, elapsed, cfg).value.cases;
      |cs| == |r.tests|
      && forall i | 0 <= i < |cs| ::
        && cs[i].name == HtmlEscape(r.tests[i].title)
        && cs[i].classname == HtmlEscape(r.title)
        && cs[i].time == Some(r.tests[i].time)
        && ((cs[i].body == Failed || Throws(cs[i].body)) <==> r.tests[i].state == Some("failed"))
        && (cs[i].body == Aborted <==> (r.tests[i].state == Some("failed") && r.tests[i].err.None?))
        && (cs[i].body == DiffAborted <==> (r.tests[i].state == Some("failed") && r.tests[i].err.Some?
                                            && UnifiedDiff(r.tests[i].err.value, cfg).None?))
        && (cs[i].body == Skipped <==> r.tests[i].state == None)
        && (cs[i].body == SelfClosed <==> (r.tests[i].state.Some? && r.tests[i].state != Some("failed")))
  {
    SuiteXmlOf(r, elapsed, cfg);
    var cs := CasesOf(r, cfg);
    forall i | 0 <= i < |cs|
      ensures && cs[i].name == HtmlEscape(r.tests[i].title)
        && cs[i].classname == HtmlEscape(r.title)
        && cs[i].time == Some(r.tests[i].time)
        && ((cs[i].body == Failed || Throws(cs[i].body)) <==> r.tests[i].state == Some("failed"))
        && (cs[i].body == Aborted <==> (r.tests[i].state == Some("failed") && r.tests[i].err.None?))
        && (cs[i].body == DiffAborted <==> (r.tests[i].state == Some("failed") && r.tests[i].err.Some?
                                            && UnifiedDiff(r.tests[i].err.value, cfg).None?))
        && (cs[i].body == Skipped <==> r.tests[i].state == None)
        && (cs[i].body == SelfClosed <==> (r.tests[i].state.Some? && r.tests[i].state != Some("failed")))
    {
      assert cs[i] == CaseOf(r.tests[i], r.title, cfg);
      BodyOfState(r.tests[i], cfg);
    }
  }

  /** The body of a test's case, by its state and its error. */
  lemma BodyOfState(t: Test, cfg: DiffConfig)
    ensures (BodyOf(t, cfg) == Failed || Throws(BodyOf(t, cfg))) <==> t.state == Some("failed")
    ensures BodyOf(t, cfg) == Aborted <==> (t.state == Some("failed") && t.err.None?)
    ensures BodyOf(t, cfg) == DiffAborted <==> (t.state == Some("failed") && t.err.Some? && UnifiedDiff(t.err.value, cfg).None?)
    ensures BodyOf(t, cfg) == Skipped <==> t.state == None
    ensures BodyOf(t, cfg) == SelfClosed <==> (t.state.Some? && t.state != Some("failed"))
  {
  }

  /** Every escaped attribute value holds no quote and no `<`, so it cannot end its attribute or open a tag. */
  lemma EscapedAttributesSafe(r: SuiteRecord, elapsed: string, cfg: DiffConfig)
    requires SuiteXml(r, elapsed, cfg).Some?
    ensures var e := SuiteXml(r, elapsed, cfg).value;
      '"' !in e.name && '<' !in e.name
      && forall i | 0 <= i < |e.cases| ::
        '"' !in e.cases[i].classname && '<' !in e.cases[i].classname
        && '"' !in e.cases[i].name && '<' !in e.cases[i].name
  {
    SuiteXmlOf(r, elapsed, cfg);
    HtmlEscapeSafe(r.title);
    CasesSafe(r, cfg);
  }

  lemma CasesSafe(r: SuiteRecord, cfg: DiffConfig)
    ensures forall i | 0 <= i < |CasesOf(r, cfg)| ::
      '"' !in CasesOf(r, cfg)[i].classname && '<' !in CasesOf(r, cfg)[i].classname
      && '"' !in CasesOf(r, cfg)[i].name && '<' !in CasesOf(r, cfg)[i].name
  {
    var cs := CasesOf(r, cfg);
    HtmlEscapeSafe(r.title);
    if HookFailure(r) {
      assert cs == [HookCase(r.title)];
      assert cs[0].name == HtmlEscape(r.title) + " before";
    } else {
      forall i | 0 <= i < |cs|
        ensures '"' !in cs[i].classname && '<' !in cs[i].classname && '"' !in cs[i].name && '<' !in cs[i].name
      {
        assert cs[i] == CaseOf(r.tests[i], r.title, cfg);
        HtmlEscapeSafe(r.tests[i].title);
      }
    }
  }

  /**
   * The failure element of a failed test is the same whatever its error
   * says, as long as both diagnostics throw or both do not: the message and
   * the diagnostic are never written.
   */
  lemma FailureTextIgnoresError(t: Test, e1: TestError, e2: TestError, suiteTitle: string, cfg: DiffConfig)
    requires t.state == Some("failed")
    ensures UnifiedDiff(e1, cfg).Some? == UnifiedDiff(e2, cfg).Some? ==>
      RenderCase(CaseOf(t.(err := Some(e1)), suiteTitle, cfg)) == RenderCase(CaseOf(t.(err := Some(e2)), suiteTitle, cfg))
  {
  }

  lemma NoAbortAppend(cs: seq<TestCase>, c: TestCase)
    requires !AnyThrows(cs) && !Throws(c.body)
    ensures !AnyThrows(cs + [c])
  {
    forall i | 0 <= i < |cs + [c]| ensures !Throws((cs + [c])[i].body) {
      if i < |cs| {
        assert (cs + [c])[i] == cs[i];
      }
    }
  }

  /** Writing cases one after another, none of which throws, writes their texts in order. */
  lemma {:induction false} RenderCasesAppend(cs: seq<TestCase>, c: TestCase)
    requires !AnyThrows(cs)
    ensures RenderCases(cs + [c]) == RenderCases(cs) + RenderCase(c)
  {
    if cs == [] {
      assert [c][1..] == [];
    } else {
      assert (cs + [c])[0] == cs[0];
      assert (cs + [c])[1..] == cs[1..] + [c];
      assert !Throws(cs[0].body);
      assert !AnyThrows(cs[1..]) by {
        forall i | 0 <= i < |cs[1..]| ensures !Throws(cs[1..][i].body) {
          assert cs[1..][i] == cs[i + 1];
        }
      }
      RenderCasesAppend(cs[1..], c);
    }
  }

  /** The writing stops at the first case that throws: what follows it is never written. */
  lemma {:induction false} RenderCasesStop(cs: seq<TestCase>, c: TestCase, rest: seq<TestCase>)
    requires !AnyThrows(cs) && Throws(c.body)
    ensures RenderCases(cs + [c] + rest) == RenderCases(cs) + RenderCase(c)
  {
    if cs == [] {
      assert ([c] + rest)[0] == c;
      assert cs + [c] + rest == [c] + rest;
    } else {
      assert (cs + [c] + rest)[0] == cs[0];
      assert (cs + [c] + rest)[1..] == cs[1..] + [c] + rest;
      assert !Throws(cs[0].body);
      assert !AnyThrows(cs[1..]) by {
        forall i | 0 <= i < |cs[1..]| ensures !Throws(cs[1..][i].body) {
          assert cs[1..][i] == cs[i + 1];
        }
      }
      RenderCasesStop(cs[1..], c, rest);
    }
  }
}
