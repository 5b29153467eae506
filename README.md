# mocha-jenkins-reporter, modelled in Dafny

This project models `lib/jenkins.js`, a Mocha reporter. The reporter turns
the test runner's lifecycle events into JUnit-style XML.

The reporter's closure state is the class `Jenkins.Reporter`:
- `currentSuite`: the single open suite record;
- `fd`: the table of open file handles, keyed by the suite's slug;
- the directory flag and the resolved report path.

Files are modelled as one append-only buffer per handle (`out`), plus the
name each handle was opened on (`fileName`) and the set of handles still
open. `writeString` appends to a buffer, or does nothing without a handle.
The handlers of the `start`, `suite`, `test end`, `pass`, `fail`, `pending`
and `end` events are methods of the class. Each keeps the invariant
`Valid()`:
- at most one suite is open;
- only that suite owns a handle, registered under its non-empty slug;
- the table's handles are exactly the open ones;
- an open file holds exactly its `<testsuites>` opening tag until its suite
  is closed.

The pure parts are functions with lemmas:
- `genSuiteReport`'s output is `Report.SuiteReport`. It is computed from a
  suite element (`Report.SuiteXml`) that states the counters and the list of
  cases.
- The `genSuiteReport` method writes that text piece by piece, with the
  source's `forEach` as a loop. It is proved equal to the function.
- The other pure functions model `htmlEscape` (`Escape`), the suite slug
  (`Slug`) and `unifiedDiff` with its line clean-up (`Diff`).

Modules:
- `Wrappers`: `Option`.
- `Text`: replacement, translation, line splitting, number rendering.
- `Escape`, `Slug`, `Diff`: the three text helpers of the reporter.
- `Report`: suite records, test cases and the rendered report.
- `Jenkins`: the reporter class and its handlers.

Quirks of the code that the model keeps:
- The failure message and the diff are passed to `writeString` without a
  handle (lines 85 and 87), so they never reach the file. A failed case
  always reads `<failure message="">` followed by an empty body.
- `unifiedDiff` stringifies `err.actual` where it means `err.expected`
  (line 194).
- `unifiedDiff` keeps the raw patch in front of its cleaned lines
  (line 199, `+=`).
- A failed test without an error object throws at `test.err.message` after
  `<failure message="` is written. The rest of the suite is not written, but
  `endSuite` still writes `</testsuites>` and closes the file.
- `unifiedDiff` throws when `JSON.stringify` throws on a value (a circular
  structure, a BigInt) or the diff library throws. The case then stops after
  `<failure message="">` and its line feed, with the same effect on the rest
  of the suite.
- Every suite gets its own `<testsuites>` wrapper.

Behaviours of the code that a reader may not expect:
- **No single-file mode.** A handle is opened only in directory mode and
  only for a non-empty slug. When the configured report path is not a
  directory, the `start` handler resolves it to its parent directory and
  sets the directory flag from that. No shared combined file is ever opened,
  and without a handle nothing is written.
- **No open suite throws.** `test end`, `pass` and `fail` throw a
  `TypeError` when no suite is open, because they dereference
  `currentSuite`; they are not silent no-ops. The model returns
  `ok = false` and changes nothing.
- **The handle table is a plain object.** `fd[id]` also finds members that
  every object inherits. The only one a slug can name is `constructor`
  (from a title such as "Constructor"). Outside directory mode that lookup
  yields the inherited `Object` function. `writeString` then passes it to
  `fs.writeSync`, which throws. The throw inside `genSuiteReport` is caught,
  but the one at line 141 is not. So `endSuite`, and with it the `suite` or
  `end` handler, throws. The model's `EndSuite`, `OnSuite` and `OnEnd`
  return `threw = true` in exactly that case. Nothing is written then, and
  `OnSuite` does not open the new suite.
- **Same slug, same file.** Titles such as "A b" and "a-b" share the slug
  `a_b`. In directory mode the second suite reopens `a_b.xml` with flag
  `'w'`, which empties it, so only the last suite's report remains.
  `Jenkins.FileContents` gives a file's contents as the buffer of the last
  handle opened on its name.
- **The slug keeps edge underscores.** `trim` runs before the replacement,
  so a title ending in punctuation keeps a trailing underscore:
  `My Suite!` becomes `my_suite_`.

## Model

| member | source | states |
|---|---|---|
| Escape.HtmlEscape | lib/jenkins.js:156-163 | the five chained global replacements, `&` first; its properties are the lemmas below |
| Escape.EscapeChar | lib/jenkins.js:156-163 | each of the five reserved characters becomes an entity running from `&` to `;`; every other character is kept as is |
| Escape.HtmlEscapeSinglePass | lib/jenkins.js:156-163 | the five chained replacements, `&` first, equal one left-to-right pass that replaces each character by its own entity, so nothing is escaped twice |
| Escape.HtmlEscapeChar | lib/jenkins.js:156-163 | a one-character input becomes exactly its one entity |
| Escape.HtmlEscapeSafe | lib/jenkins.js:156-163 | the output contains no `<`, `>`, `"` or `'` |
| Escape.HtmlEscapePlain | lib/jenkins.js:156-163 | input without any of the five reserved characters is returned unchanged |
| Escape.HtmlEscapeAppend | lib/jenkins.js:156-163 | escaping distributes over concatenation |
| Escape.UnescapeHtmlEscape | lib/jenkins.js:156-163 | decoding the five entities restores the input, so escaping loses nothing and is injective |
| Escape.UnescapeStep | lib/jenkins.js:156-163 | decoding reads back one escaped character and continues with the rest |
| Text.ReplaceAll | lib/jenkins.js:158-162 | a global one-character replacement leaves text without that character unchanged, and removes it when the replacement does not contain it |
| Text.ReplaceAllAppend | lib/jenkins.js:158-162 | a global replacement distributes over concatenation |
| Slug.ToLower | lib/jenkins.js:106 | `toLowerCase` on ASCII capitals; every other character is kept |
| Slug.Trim | lib/jenkins.js:106 | `trim`: leading whitespace removed, then trailing whitespace |
| Slug.TrimStart | lib/jenkins.js:106 | `trim` drops exactly the leading JavaScript whitespace: a suffix of the input whose first character is not whitespace |
| Slug.TrimEnd | lib/jenkins.js:106 | `trim` drops exactly the trailing JavaScript whitespace: a prefix whose last character is not whitespace |
| Slug.RunLength | lib/jenkins.js:106 | the length of a maximal run of characters outside `[a-z0-9]` at the start of a string |
| Slug.CollapseRuns | lib/jenkins.js:106 | `replace(/[^a-z0-9]+/g, '_')` is empty iff its input is, and starts with `_` iff the input starts outside `[a-z0-9]` |
| Slug.CollapseRunsAlphabet | lib/jenkins.js:106 | the replacement yields only `[a-z0-9_]` and never two underscores in a row |
| Slug.CollapseRunsKeeps | lib/jenkins.js:106 | the letters and digits of the input survive, in order, and nothing else of `[a-z0-9]` appears |
| Slug.CollapseRunsLast | lib/jenkins.js:106 | the result ends with `_` iff the input ends outside `[a-z0-9]` |
| Slug.SuiteSlug | lib/jenkins.js:106 | the slug: lower-case, trim, then replace each run outside `[a-z0-9]` by one `_`; its shape is stated by `Slug.SuiteSlugShape` |
| Slug.CollapseRunsRun | lib/jenkins.js:106 | a non-empty run outside `[a-z0-9]` before a letter, a digit or the end becomes exactly one `_` |
| Slug.CollapseRunsSplit | lib/jenkins.js:106 | the replacement works separately on each side of a boundary after a letter or digit |
| Slug.CollapseRunsMiddle | lib/jenkins.js:106 | a run between a letter or digit and a letter, a digit or the end becomes exactly one `_`, and both sides are replaced on their own |
| Slug.SuiteSlugConstructor | lib/jenkins.js:106 | "Constructor" gives the slug "constructor" |
| Slug.SharedSlug | lib/jenkins.js:106 | "A b" and "a-b" give the same slug "a_b" |
| Slug.SuiteSlugShape | lib/jenkins.js:106 | the slug is over `[a-z0-9_]`, has no double underscore, keeps the letters and digits of the lower-cased title in order, and is empty iff the title is all whitespace |
| Slug.KeepTrimmed | lib/jenkins.js:106 | trimming removes no letter or digit |
| Slug.SuiteSlugExample | lib/jenkins.js:106 | "My Suite!" gives the slug "my_suite_" |
| Slug.CollapseExample | lib/jenkins.js:106 | runs collapse to one underscore each, the trailing one included |
| Diff.EscapeInvisibles | lib/jenkins.js:166-170 | the three chained replacements of tab, CR and LF; its properties are the lemmas below |
| Diff.EscapeInvisiblesChar | lib/jenkins.js:166-170 | each of tab, CR and LF gets its visible form; every other character is kept |
| Diff.EscapeInvisiblesSinglePass | lib/jenkins.js:166-170 | the three chained replacements equal one per-character pass, so the inserted `<LF>` is not rewritten |
| Diff.EscapeInvisiblesVisible | lib/jenkins.js:166-170 | the output has no tab and no CR, and every line feed in it directly follows `<LF>` |
| Diff.CleanUp | lib/jenkins.js:172-176 | `null` for a line holding `@@` or `\ No newline`, otherwise the line made visible |
| Diff.NotBlank | lib/jenkins.js:178-180 | a line is kept exactly when it is not `null` |
| Diff.MapCleanUp | lib/jenkins.js:199 | `lines.map(cleanUp)`, line by line |
| Diff.FilterNotBlank | lib/jenkins.js:199 | `.filter(notBlank)`: the non-null lines in order |
| Diff.CleanLines | lib/jenkins.js:199 | the `map`/`filter` pipeline; `Diff.CleanLinesFilterThenEscape` states what it yields |
| Diff.KeptEscaped | lib/jenkins.js:172-180 | the reference reading of the pipeline has at most as many lines as its input, and exactly as many when no line is dropped |
| Diff.CleanLinesFilterThenEscape | lib/jenkins.js:172-180 | `map(cleanUp).filter(notBlank)` equals: keep the lines without `@@` or `\ No newline`, then make each visible |
| Diff.CleanLinesFromKept | lib/jenkins.js:172-180 | every line that survives the clean-up comes from an input line with no `@@` and no `\ No newline` marker, made visible |
| Diff.KeptEscapedFromKept | lib/jenkins.js:172-180 | the reference reading keeps only lines free of both markers |
| Diff.KeptEscapedVisible | lib/jenkins.js:172-180 | surviving lines hold no tab or CR, and each line feed in them follows `<LF>` |
| Diff.ActualText | lib/jenkins.js:182-191 | the actual side: a string value as it is, any other value through `JSON.stringify` |
| Diff.ExpectedText | lib/jenkins.js:193-195 | the expected side: a string value as it is, any other value replaced by `JSON.stringify` of the ACTUAL value |
| Diff.PatchOf | lib/jenkins.js:187-197 | the raw patch between the two sides, `None` when stringifying a side or the diff library throws; an `undefined` side reaches the library as `None` |
| Diff.CleanedAfter | lib/jenkins.js:198-205 | the lines of a text after its first `n`, cleaned up and joined by line feeds: `splice(4)` for the patch, `slice(1)` for the stack |
| Diff.UnifiedDiff | lib/jenkins.js:182-208 | the diagnostic text, or `None` where stringifying or the diff library throws; stated by the lemmas below |
| Diff.UnifiedDiffThrows | lib/jenkins.js:187-197 | the diagnostic throws exactly when both values are truthy and stringifying a side or the diff library throws; the stack alone never throws |
| Diff.UnifiedDiffUndefinedSides | lib/jenkins.js:189-197 | when `JSON.stringify` gives `undefined` for the actual value and neither value is a string, the diff library gets `undefined` on both sides |
| Diff.UnifiedDiffKeepsRawPatch | lib/jenkins.js:182-200 | with truthy actual and expected values, the text starts with the raw patch and goes on with the cleaned lines after its four header lines |
| Diff.UnifiedDiffEmpty | lib/jenkins.js:182-208 | without a truthy pair of values, and without an included stack, the text is empty |
| Diff.UnifiedDiffIgnoresNonStringExpected | lib/jenkins.js:187-197 | a truthy non-string expected value never influences the text, because the actual value is stringified in its place |
| Text.JoinLines | lib/jenkins.js:199 | `join('\n')`; `Text.JoinSplit` and `Text.SplitJoin` relate it to `split` |
| Text.JoinSplit | lib/jenkins.js:198-199 | joining the pieces of `split('\n')` with line feeds restores the text |
| Text.SplitJoin | lib/jenkins.js:198-199 | splitting a join of line-feed-free pieces returns the pieces |
| Text.SplitLines | lib/jenkins.js:198 | `split('\n')` gives at least one piece, and no piece holds a line feed |
| Text.DropLines | lib/jenkins.js:198-204 | `splice(n)` and `slice(n)` leave the pieces after the first `n`, in order |
| Text.NatToString | lib/jenkins.js:62-64 | a counter is written as at least one decimal digit, without a leading zero |
| Text.ParseNatToString | lib/jenkins.js:62-64 | the written counter reads back as the same number |
| Report.ClassName | lib/jenkins.js:211-222 | the default branch of `getClassName`: the escaped suite title |
| Report.BodyOf | lib/jenkins.js:82-96 | the body of a test's case by state: `"failed"` gives a failure, cut short when there is no error object or its diagnostic throws; undefined gives skipped; any other state a self-closed case |
| Report.CaseOf | lib/jenkins.js:78-81 | a test's case: the default class name, the escaped test title, its time and its body |
| Report.HookCase | lib/jenkins.js:70-75 | the synthesized case: classname the escaped suite title, name the escaped title plus " before", no time, a before-hook failure body |
| Report.CasesOf | lib/jenkins.js:69-97 | the one synthesized case of a hook failure, else one case per test; stated by `Report.HookFailureCase` and `Report.CasesFollowTests` |
| Report.SuiteXml | lib/jenkins.js:49-101 | the element of a closed suite, `None` when suppressed; stated by `Report.SuppressedIffEmpty` and `Report.SuiteCounts` |
| Report.RenderCase | lib/jenkins.js:70-96 | the text of one case, cut where a throwing body throws; stated piece by piece by `Jenkins.TestCasePieces` and `Jenkins.HookCasePieces` |
| Report.RenderCases | lib/jenkins.js:77-97 | the `forEach` over the cases: their texts in order, up to and including the first that throws |
| Report.SuiteOpen | lib/jenkins.js:60-67 | the `<testsuite>` opening tag with its six attributes in the source's order |
| Report.RenderSuite | lib/jenkins.js:60-100 | the opening tag, the cases, and `</testsuite>` only when no case threw |
| Report.SuiteXmlOf | lib/jenkins.js:50-66 | a suite with a positive test count is emitted with its escaped title, the test count, its failures, the skipped count and all its cases |
| Report.SuiteReport | lib/jenkins.js:49-101 | everything `genSuiteReport` writes; stated by `Report.SuiteReportParts` and `Report.SuiteReportEnclosed` |
| Report.TestCount | lib/jenkins.js:50-54 | the test count is the larger of the number of recorded tests and failures plus passes |
| Report.SuppressedIffEmpty | lib/jenkins.js:50-58 | nothing is written for a suite exactly when it has no recorded test, no failure and no pass |
| Report.SuiteCounts | lib/jenkins.js:50-64 | an emitted suite reports `tests` equal to the positive test count, its own `failures`, and a non-negative `skipped` that adds up with failures and passes to `tests` |
| Report.SuiteReportParts | lib/jenkins.js:60-100 | an emitted suite is its opening tag, then its cases, then `</testsuite>` unless a case threw |
| Report.HookFailureCase | lib/jenkins.js:69-75 | with no recorded test and some failure, the suite is emitted with exactly one case: classname the escaped title, name the escaped title plus " before", a before-hook failure body |
| Report.HookFailureText | lib/jenkins.js:69-75 | the report of such a suite contains `<failure message="Failed during before hook"/>` |
| Report.HookCaseParts | lib/jenkins.js:69-75 | the hook-failure suite renders only the synthesized case, which does not throw |
| Report.CasesFollowTests | lib/jenkins.js:77-97 | otherwise there is one case per recorded test, in order: escaped test title, the escaped suite title as class name (default `getClassName`), the test's time, and a failure, skipped or self-closed body exactly by state |
| Report.AbortedIffThrows | lib/jenkins.js:82-87 | rendering stops at an exception exactly when a failed test has no error object, or its diagnostic throws |
| Report.FailureTextIgnoresError | lib/jenkins.js:82-89 | for two errors whose diagnostics both throw or both do not, a failed case writes the same text, because the message and the diff go to no handle |
| Report.RenderCasesAppend | lib/jenkins.js:77-97 | one more case after cases that did not throw adds its text at the end |
| Report.RenderCasesStop | lib/jenkins.js:77-97 | after a case that throws, no later case is written |
| Report.EscapedAttributesSafe | lib/jenkins.js:60-80 | every escaped name and classname attribute holds no quote and no `<` |
| Report.SuiteReportEnclosed | lib/jenkins.js:60-100 | a report that does not throw starts with `<testsuite` and ends with `</testsuite>` and a line feed |
| Jenkins.SuitesOpenTag | lib/jenkins.js:113 | the `<testsuites>` opening tag with the report name, "Mocha Tests" when it is empty |
| Jenkins.Lookup | lib/jenkins.js:131 | `fd[id]` on a plain object: an own handle exactly when the slug is in the table, an inherited member exactly when it is not but names one of `Object.prototype`'s members |
| Jenkins.InheritedSlugIsConstructor | lib/jenkins.js:106-131 | the only inherited member a slug can find is `constructor` |
| Jenkins.PrototypeNameNotSlug | lib/jenkins.js:106-131 | no other inherited member name has the shape of a slug |
| Jenkins.ConstructorSuiteInherits | lib/jenkins.js:106-131 | outside directory mode the suite "Constructor" finds the inherited member |
| Jenkins.LastOpened | lib/jenkins.js:109 | the last handle opened on a name: no later handle has that name, and none at all when it returns nothing |
| Jenkins.FileContents | lib/jenkins.js:109 | a file holds the buffer of the last handle opened on its name |
| Jenkins.NewestHandleFile | lib/jenkins.js:109 | a file just opened holds exactly what its new handle wrote |
| Jenkins.ReopenReplaces | lib/jenkins.js:109 | reopening a name an earlier handle wrote leaves only what the new handle wrote |
| Jenkins.DefaultReportName | lib/jenkins.js:113 | an empty report name gives the same wrapper as the name "Mocha Tests" |
| Jenkins.ReportFileWrapped | lib/jenkins.js:113-141 | a closed file starts with `<testsuites name="`, ends with `</testsuites>` and a line feed, and holds the suite's report right after the opening tag |
| Jenkins.Appended | lib/jenkins.js:42-47 | with a handle, its buffer gains the text at its end and every other buffer is unchanged; without a handle nothing changes; no handle appears or disappears |
| Jenkins.ClosedOut | lib/jenkins.js:127-146 | closing a suite appends its report and `</testsuites>` to its own handle's buffer and leaves every other buffer unchanged |
| Jenkins.SuiteOpenPieces | lib/jenkins.js:60-67 | the opening tag is the eight pieces in the order the source writes them |
| Jenkins.TestCasePieces | lib/jenkins.js:78-96 | a test's case is the pieces the `forEach` callback writes, by state |
| Jenkins.HookCasePieces | lib/jenkins.js:70-75 | the synthesized case is the six pieces the source writes |
| Jenkins.Reporter.constructor | lib/jenkins.js:35-39 | the reporter starts with no open suite, no handle and directory mode off |
| Jenkins.Reporter.AtMostOneOpen | lib/jenkins.js:103-146 | under the invariant at most one handle is registered and open |
| Jenkins.Reporter.OnStart | lib/jenkins.js:224-232 | with a set report path, the path is kept if it is a directory and replaced by its parent otherwise; directory mode is whether the result is a directory; an unset path changes nothing else |
| Jenkins.Reporter.WriteString | lib/jenkins.js:42-47 | appends the text to the handle's buffer; without a handle no buffer changes |
| Jenkins.Reporter.WriteSuiteOpen | lib/jenkins.js:60-67 | appends the suite's opening tag |
| Jenkins.Reporter.WriteHookCase | lib/jenkins.js:69-75 | appends the synthesized hook-failure case |
| Jenkins.Reporter.WriteTestCase | lib/jenkins.js:78-96 | appends the test's case, and reports a throw exactly when a failed test has no error or its diagnostic throws |
| Jenkins.Reporter.WriteTestCases | lib/jenkins.js:77-97 | the loop appends the cases of all tests in order, stopping after the first that throws, and reports whether one did |
| Jenkins.Reporter.GenSuiteReport | lib/jenkins.js:49-101 | appends exactly the suite's report, and throws exactly when a failed test has no error or its diagnostic throws |
| Jenkins.Reporter.OpenFile | lib/jenkins.js:109 | opening hands out a fresh handle with an empty buffer |
| Jenkins.Reporter.OpenSuiteFile | lib/jenkins.js:108-111 | opens `<slug>.xml` and registers the handle as the only one, under the slug |
| Jenkins.Reporter.OpenSuite | lib/jenkins.js:107-122 | given the slug, opens a file only in directory mode with a non-empty slug, writes the wrapper's opening tag to it, and records a fresh suite with no tests and zero counters; the file named after the slug then holds only that tag |
| Jenkins.Reporter.StartSuite | lib/jenkins.js:103-125 | the same, with the slug computed from the title; with no file, no buffer changes |
| Jenkins.Reporter.EndSuite | lib/jenkins.js:127-146 | clears the open suite and the handle table, appends the report and `</testsuites>` to the suite's handle even when the report throws, and closes it; that file then reads wrapper, report, closing tag; it throws, writing nothing, exactly when the slug finds an inherited member |
| Jenkins.Reporter.OnTestEnd | lib/jenkins.js:148-150 | appends the test to the end of the open suite's tests, nothing else changes; with no open suite it fails and changes nothing |
| Jenkins.Reporter.OnPass | lib/jenkins.js:260-267 | increments only the open suite's passes; with no open suite it fails and changes nothing |
| Jenkins.Reporter.OnFail | lib/jenkins.js:269-274 | increments only the open suite's failures and returns the new count; with no open suite it fails and changes nothing |
| Jenkins.Reporter.OnPending | lib/jenkins.js:253-258 | changes no state |
| Jenkins.Reporter.OnSuite | lib/jenkins.js:241-246 | closes any open suite before opening the new one: the buffers are those after closing, plus the new file's opening tag; when closing throws (inherited slug) the new suite is not opened and nothing is written |
| Jenkins.Reporter.OnEnd | lib/jenkins.js:234-239 | closes the last suite, if any; afterwards no suite, handle or file is open; it throws exactly when closing does |

## Left out

- Console output is not modelled: the suite headings, durations, pass, pending and failure lines, `Base`, `cursor`, `color` and the `epilogue` call. It does not affect the reports.
- The file system is abstract. Handles are numbers handed out by a counter, each with its own buffer; a file's contents are the buffer of the last handle opened on its name (`Jenkins.FileContents`). `path.join` is not modelled: files are named relative to the report directory. `fs.existsSync` and `statSync(...).isDirectory()` are one parameter, `isDir`, and `path.dirname` is the parameter `dirName`. Write, open and close errors are not modelled. A file descriptor of 0 would be falsy in JavaScript; descriptors handed out by the runtime are positive, so a handle is modelled as present or absent.
- `diff.createPatch` and `JSON.stringify` are uninterpreted function parameters (`createPatch`, `stringify`). `String` wrapper objects count as non-string values.
- Clock and floating-point values are opaque strings supplied by the caller: the suite start date, `toUTCString`, the suite duration and `test.duration / 1000`.
- Environment variables become configuration:
  - `JUNIT_REPORT_NAME` is the constant `reportName`; unset and empty both give "Mocha Tests".
  - `JUNIT_REPORT_STACK` is `includeStack`.
  - `JUNIT_REPORT_PATH` is the argument of `OnStart`.
- The Sonar branch of `getClassName` (lib/jenkins.js:213-220) is not modelled. It depends on `process.cwd`, `path.relative`, `path.extname` and a dynamic regular expression. Only the default class name, the escaped suite title, is modelled.
- The timer re-bindings (lib/jenkins.js:16-20) are not modelled: they only protect against test doubles.
- Slug.ToLower: `toLowerCase` is modelled on ASCII letters only. Other letters keep their case, so in the model they become underscore runs in the slug. JavaScript maps some non-ASCII capitals to ASCII letters, and so into the slug: U+212A (Kelvin sign) becomes `k`, and U+0130 becomes `i` followed by a combining dot. Full Unicode case mapping is not modelled.
- Report.Test: a test is recorded as a value at `test end`. The source pushes a reference to the runner's test object (lib/jenkins.js:149) and reads its `state` and `err` only when the suite is closed. A later change to that object is therefore not seen by the model: for example, a test marked failed after `test end` by a second `done()` call. The source renders such a test as failed; the model renders the state it had at `test end`.
- A test error's `message` is not modelled beyond its presence, because the message is never written.
- Mocha passes suite objects whose `fullTitle()` is read; the model takes the title string directly.
