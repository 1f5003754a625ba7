/**
 * The edit form's data handling: flattening a saved question's testcases
 * into the form's parallel per-row arrays (`data_preprocessing`), the
 * newline hack that protects a text area's leading line feed, the
 * one-line form of the test splitter, the allowed `display` values and
 * the lookup of a file manager's draft id.
 */
module EditForm {
  import opened Php
  import opened Testcases

  // ---------------------------------------------------------------------
  // The newline hack

  /** `newline_hack`: a line feed put in front of text shown at the start of a text area. */
  function NewlineHack(s: string): (r: string)
    ensures |r| == |s| + 1 && r[0] == '\n' && r[1..] == s
  {
    "\n" + s
  }

  /** What a browser does to the content of a text area: a leading line feed is dropped. */
  function BrowserStrip(s: string): (r: string)
    ensures r == s || (s != [] && s[0] == '\n' && r == s[1..])
  {
    if s != [] && s[0] == '\n' then s[1..] else s
  }

  /** The hack's purpose: whatever the text, it comes back from the browser intact. */
  lemma NewlineHackSurvivesBrowser(s: string)
    ensures BrowserStrip(NewlineHack(s)) == s
  {
  }

  /** Without the hack, text that starts with a line feed loses it, and only such text changes. */
  lemma BrowserDropsLeadingNewline(s: string)
    ensures BrowserStrip(s) != s <==> s != [] && s[0] == '\n'
  {
    if s != [] && s[0] == '\n' {
      assert |BrowserStrip(s)| < |s|;
    }
  }

  // ---------------------------------------------------------------------
  // The test splitter in one-line form

  /**
   * `str_replace("\n", '\n', $testsplitterre)`: every line feed becomes
   * the two characters backslash and `n`.
   */
  function EscapeNewlines(s: string): (r: string)
    ensures '\n' !in r
    ensures '\n' !in s ==> r == s
    ensures s == "\n" ==> r == ['\\', 'n']
  {
    ReplaceCharSpec(s, '\n', ['\\', 'n']);
    ReplaceChar(s, '\n', ['\\', 'n'])
  }

  /**
   * The result holds no line feed, text without line feeds is left as it
   * is, and escaping works piecewise; so escaping twice is escaping once.
   */
  lemma EscapeNewlinesSpec(s: string, t: string)
    ensures '\n' !in EscapeNewlines(s)
    ensures '\n' !in s ==> EscapeNewlines(s) == s
    ensures EscapeNewlines(EscapeNewlines(s)) == EscapeNewlines(s)
    ensures EscapeNewlines(s + t) == EscapeNewlines(s) + EscapeNewlines(t)
    ensures EscapeNewlines("\n") == ['\\', 'n']
  {
    ReplaceCharSpec(s, '\n', ['\\', 'n']);
    ReplaceCharSpec(EscapeNewlines(s), '\n', ['\\', 'n']);
    ReplaceCharConcat(s, t, '\n', ['\\', 'n']);
  }

  // ---------------------------------------------------------------------
  // Flattening testcases into the form's arrays

  /**
   * The form's per-row testcase arrays.  Marks are kept as values:
   * `sprintf("%.3f", ...)` is not modelled.
   */
  datatype FormArrays = FormArrays(
    testCode: seq<string>,
    testType: seq<int>,
    stdin: seq<string>,
    expected: seq<string>,
    extra: seq<string>,
    useAsExample: seq<bool>,
    display: seq<string>,
    hideRestIfFail: seq<bool>,
    mark: seq<Mark>)

  const NoArrays := FormArrays([], [], [], [], [], [], [], [], [])

  /** One pass of the `foreach`: the testcase's fields appended to each array. */
  function AppendRow(a: FormArrays, tc: Testcase): FormArrays
  {
    FormArrays(
      a.testCode + [NewlineHack(tc.testCode)],
      a.testType + [tc.testType],
      a.stdin + [NewlineHack(tc.stdin)],
      a.expected + [NewlineHack(tc.expected)],
      a.extra + [NewlineHack(tc.extra)],
      a.useAsExample + [tc.useAsExample],
      a.display + [tc.display],
      a.hideRestIfFail + [tc.hideRestIfFail],
      a.mark + [tc.mark])
  }

  /** The whole `foreach` over the saved testcases, appending to whatever the arrays hold. */
  function AppendRows(a: FormArrays, tcs: seq<Testcase>): FormArrays
    decreases |tcs|
  {
    if tcs == [] then a else AppendRows(AppendRow(a, tcs[0]), tcs[1..])
  }

  /**
   * The arrays the form shows for `tcs`, one entry per testcase and in the
   * same order: text fields through the newline hack, the rest copied.
   */
  function FlattenTestcases(tcs: seq<Testcase>): (a: FormArrays)
    ensures Aligned(a) && |a.testCode| == |tcs|
  {
    var n := |tcs|;
    FormArrays(
      seq(n, i requires 0 <= i < n => NewlineHack(tcs[i].testCode)),
      seq(n, i requires 0 <= i < n => tcs[i].testType),
      seq(n, i requires 0 <= i < n => NewlineHack(tcs[i].stdin)),
      seq(n, i requires 0 <= i < n => NewlineHack(tcs[i].expected)),
      seq(n, i requires 0 <= i < n => NewlineHack(tcs[i].extra)),
      seq(n, i requires 0 <= i < n => tcs[i].useAsExample),
      seq(n, i requires 0 <= i < n => tcs[i].display),
      seq(n, i requires 0 <= i < n => tcs[i].hideRestIfFail),
      seq(n, i requires 0 <= i < n => tcs[i].mark))
  }

  /** Concatenation of the arrays column by column. */
  function Concat(a: FormArrays, b: FormArrays): FormArrays
  {
    FormArrays(a.testCode + b.testCode, a.testType + b.testType, a.stdin + b.stdin,
               a.expected + b.expected, a.extra + b.extra, a.useAsExample + b.useAsExample,
               a.display + b.display, a.hideRestIfFail + b.hideRestIfFail, a.mark + b.mark)
  }

  lemma AppendAssoc<T>(a: seq<T>, x: T, g: seq<T>)
    ensures (a + [x]) + g == a + ([x] + g)
  {
  }

  /** The loop appends to the test code, test type and standard input columns. */
  lemma {:induction false} AppendRowsFirstColumns(a: FormArrays, tcs: seq<Testcase>)
    ensures var r, f := AppendRows(a, tcs), FlattenTestcases(tcs);
      && r.testCode == a.testCode + f.testCode
      && r.testType == a.testType + f.testType
      && r.stdin == a.stdin + f.stdin
    decreases |tcs|
  {
    if tcs != [] {
      var tc := tcs[0];
      AppendRowsFirstColumns(AppendRow(a, tc), tcs[1..]);
      var f, g := FlattenTestcases(tcs), FlattenTestcases(tcs[1..]);
      assert f.testCode == [NewlineHack(tc.testCode)] + g.testCode;
      assert f.testType == [tc.testType] + g.testType;
      assert f.stdin == [NewlineHack(tc.stdin)] + g.stdin;
      AppendAssoc(a.testCode, NewlineHack(tc.testCode), g.testCode);
      AppendAssoc(a.testType, tc.testType, g.testType);
      AppendAssoc(a.stdin, NewlineHack(tc.stdin), g.stdin);
    }
  }

  /** The loop appends to the expected output, extra and use-as-example columns. */
  lemma {:induction false} AppendRowsMiddleColumns(a: FormArrays, tcs: seq<Testcase>)
    ensures var r, f := AppendRows(a, tcs), FlattenTestcases(tcs);
      && r.expected == a.expected + f.expected
      && r.extra == a.extra + f.extra
      && r.useAsExample == a.useAsExample + f.useAsExample
    decreases |tcs|
  {
    if tcs != [] {
      var tc := tcs[0];
      AppendRowsMiddleColumns(AppendRow(a, tc), tcs[1..]);
      var f, g := FlattenTestcases(tcs), FlattenTestcases(tcs[1..]);
      assert f.expected == [NewlineHack(tc.expected)] + g.expected;
      assert f.extra == [NewlineHack(tc.extra)] + g.extra;
      assert f.useAsExample == [tc.useAsExample] + g.useAsExample;
      AppendAssoc(a.expected, NewlineHack(tc.expected), g.expected);
      AppendAssoc(a.extra, NewlineHack(tc.extra), g.extra);
      AppendAssoc(a.useAsExample, tc.useAsExample, g.useAsExample);
    }
  }

  /** The loop appends to the display, hide-rest-if-fail and mark columns. */
  lemma {:induction false} AppendRowsLastColumns(a: FormArrays, tcs: seq<Testcase>)
    ensures var r, f := AppendRows(a, tcs), FlattenTestcases(tcs);
      && r.display == a.display + f.display
      && r.hideRestIfFail == a.hideRestIfFail + f.hideRestIfFail
      && r.mark == a.mark + f.mark
    decreases |tcs|
  {
    if tcs != [] {
      var tc := tcs[0];
      AppendRowsLastColumns(AppendRow(a, tc), tcs[1..]);
      var f, g := FlattenTestcases(tcs), FlattenTestcases(tcs[1..]);
      assert f.display == [tc.display] + g.display;
      assert f.hideRestIfFail == [tc.hideRestIfFail] + g.hideRestIfFail;
      assert f.mark == [tc.mark] + g.mark;
      AppendAssoc(a.display, tc.display, g.display);
      AppendAssoc(a.hideRestIfFail, tc.hideRestIfFail, g.hideRestIfFail);
      AppendAssoc(a.mark, tc.mark, g.mark);
    }
  }

  /** The loop appends the flattened testcases after what each array held before. */
  lemma AppendRowsIsConcat(a: FormArrays, tcs: seq<Testcase>)
    ensures AppendRows(a, tcs) == Concat(a, FlattenTestcases(tcs))
  {
    AppendRowsFirstColumns(a, tcs);
    AppendRowsMiddleColumns(a, tcs);
    AppendRowsLastColumns(a, tcs);
  }

  /** All nine arrays have one entry per row. */
  predicate Aligned(a: FormArrays)
  {
    var n := |a.testCode|;
    && |a.testType| == n && |a.stdin| == n && |a.expected| == n && |a.extra| == n
    && |a.useAsExample| == n && |a.display| == n && |a.hideRestIfFail| == n && |a.mark| == n
  }

  /**
   * Reading row `i` of the flattened arrays back through the browser gives
   * the `i`-th testcase's fields: flattening keeps count, order and content.
   */
  lemma FlattenRoundTrip(tcs: seq<Testcase>)
    ensures var a := FlattenTestcases(tcs);
      && Aligned(a) && |a.testCode| == |tcs|
      && forall i :: 0 <= i < |tcs| ==>
           && BrowserStrip(a.testCode[i]) == tcs[i].testCode
           && BrowserStrip(a.stdin[i]) == tcs[i].stdin
           && BrowserStrip(a.expected[i]) == tcs[i].expected
           && BrowserStrip(a.extra[i]) == tcs[i].extra
           && a.testType[i] == tcs[i].testType
           && a.useAsExample[i] == tcs[i].useAsExample
           && a.display[i] == tcs[i].display
           && a.hideRestIfFail[i] == tcs[i].hideRestIfFail
           && a.mark[i] == tcs[i].mark
  {
  }

  /**
   * The reset as written: `testcode`, `expected`, `useasexample`,
   * `display` and `extra` are emptied (and a misspelt `hiderestifail`
   * that nothing reads), but `testtype`, `stdin`, `hiderestiffail` and
   * `mark` keep whatever they held.
   */
  function ResetAsWritten(a: FormArrays): FormArrays
  {
    a.(testCode := [], expected := [], useAsExample := [], display := [], extra := [])
  }

  /** The flattening as written: the partial reset, then the appending loop. */
  function FlattenAsWritten(a: FormArrays, tcs: seq<Testcase>): FormArrays
  {
    AppendRows(ResetAsWritten(a), tcs)
  }

  /**
   * The discrepancy: arrays that already hold an entry leave `stdin` one
   * entry longer than `testcode`, so every standard input is shown one row
   * below its testcase.
   */
  lemma FlattenAsWrittenMisaligns(tc: Testcase)
    ensures var a := FlattenAsWritten(NoArrays.(stdin := ["\n"]), [tc]);
      && |a.testCode| == 1 && |a.stdin| == 2 && !Aligned(a)
      && a.stdin[0] == "\n" && a.stdin[1] == NewlineHack(tc.stdin)
  {
    AppendRowsIsConcat(ResetAsWritten(NoArrays.(stdin := ["\n"])), [tc]);
  }

  /** On arrays that start out empty, the code as written and the corrected flattening agree. */
  lemma FlattenAsWrittenAgreesOnFreshArrays(a: FormArrays, tcs: seq<Testcase>)
    requires a.testType == [] && a.stdin == [] && a.hideRestIfFail == [] && a.mark == []
    ensures FlattenAsWritten(a, tcs) == AppendRows(NoArrays, tcs) == FlattenTestcases(tcs)
  {
    AppendRowsIsConcat(ResetAsWritten(a), tcs);
    AppendRowsIsConcat(NoArrays, tcs);
    assert ResetAsWritten(a) == NoArrays;
  }

  // ---------------------------------------------------------------------
  // data_preprocessing

  /** The broken-question banner: plain text, or the missing-prototype message for a type. */
  datatype BrokenMessage = Text(text: string) | MissingPrototype(crType: string)

  /**
   * A penalty regime: text typed by the author, or the regime made up from
   * a legacy question's penalty, e.g. "33.3, 66.7, ...".  The number
   * formatting is not modelled.
   */
  datatype Regime = RegimeText(text: string) | LegacyRegime(penalty: real)

  /** The saved options the form reloads from. */
  datatype Options = Options(testcases: Option<seq<Testcase>>, customise: int)

  /** The question fields `data_preprocessing` reads and writes; `None` is unset or null. */
  datatype EditQuestion = EditQuestion(
    brokenQuestionMessage: Option<BrokenMessage>,
    options: Option<Options>,
    prototype: Option<int>,
    codeanalyzerType: string,
    prototypeType: int,
    customise: Option<int>,
    savedPrototypeType: Option<int>,
    courseId: Option<int>,
    typeName: Option<string>,
    testSplitterRe: Option<string>,
    penaltyRegime: Option<Regime>,
    penalty: Option<real>,
    arrays: FormArrays)

  /** `isset($question->options->testcases)`: the question is being reloaded. */
  predicate IsReload(q: EditQuestion)
  {
    q.options.Some? && q.options.value.testcases.Some?
  }

  /** `empty($question->penaltyregime)`: null, '' and '0' are empty. */
  predicate EmptyRegime(r: Option<Regime>)
  {
    r.None? || r.value == RegimeText("") || r.value == RegimeText("0")
  }

  /** `empty($question->penalty) || $question->penalty == 0`. */
  predicate NoPenalty(p: Option<real>)
  {
    p.None? || p.value == 0.0
  }

  /** The regime a legacy question is given: "0" without a penalty, else one made from it. */
  function LegacyRegimeOf(q: EditQuestion): Option<Regime>
  {
    if !EmptyRegime(q.penaltyRegime) then q.penaltyRegime
    else if NoPenalty(q.penalty) then Some(RegimeText("0"))
    else Some(LegacyRegime(q.penalty.value))
  }

  /**
   * The reload branch with a given flattening of the testcases.
   * `prototype` is what `make_question_from_form_data` finds (`None` when
   * the prototype is missing); `courseId` is the current course.
   */
  function Reload(q: EditQuestion, prototype: Option<int>, courseId: int, arrays: FormArrays): EditQuestion
    requires IsReload(q)
  {
    q.(brokenQuestionMessage :=
         if prototype.None? then Some(MissingPrototype(q.codeanalyzerType)) else q.brokenQuestionMessage,
       prototype := prototype,
       arrays := arrays,
       customise := Some(q.options.value.customise),
       savedPrototypeType := Some(q.prototypeType),
       courseId := Some(courseId),
       typeName := Some(if q.prototypeType != 0 then q.codeanalyzerType else ""),
       testSplitterRe := if q.testSplitterRe.Some? then Some(EscapeNewlines(q.testSplitterRe.value)) else None,
       penaltyRegime := LegacyRegimeOf(q))
  }

  /** The broken-question message defaults to '' when unset. */
  function WithMessageDefault(q: EditQuestion): EditQuestion
  {
    if q.brokenQuestionMessage.None? then q.(brokenQuestionMessage := Some(Text(""))) else q
  }

  /**
   * `data_preprocessing` with every array reset before flattening.
   * `defaultRegime` is the site's default penalty regime, which a new
   * question receives.
   */
  function DataPreprocessing(q: EditQuestion, prototype: Option<int>, courseId: int, defaultRegime: Option<Regime>): (r: EditQuestion)
    ensures r.brokenQuestionMessage.Some?
    ensures q.brokenQuestionMessage.Some? && !(IsReload(q) && prototype.None?) ==>
              r.brokenQuestionMessage == q.brokenQuestionMessage
    ensures q.brokenQuestionMessage.None? && !(IsReload(q) && prototype.None?) ==>
              r.brokenQuestionMessage == Some(Text(""))
    ensures IsReload(q) ==>
      && r.arrays == FlattenTestcases(q.options.value.testcases.value)
      && r.prototype == prototype
      && (prototype.None? ==> r.brokenQuestionMessage == Some(MissingPrototype(q.codeanalyzerType)))
      && r.customise == Some(q.options.value.customise)
      && r.savedPrototypeType == Some(q.prototypeType)
      && r.courseId == Some(courseId)
      && r.typeName == Some(if q.prototypeType != 0 then q.codeanalyzerType else "")
      && (q.testSplitterRe.None? <==> r.testSplitterRe.None?)
      && (q.testSplitterRe.Some? ==> r.testSplitterRe == Some(EscapeNewlines(q.testSplitterRe.value)))
      && (r.testSplitterRe.Some? ==> '\n' !in r.testSplitterRe.value)
      && (EmptyRegime(q.penaltyRegime) && NoPenalty(q.penalty) ==> r.penaltyRegime == Some(RegimeText("0")))
      && (EmptyRegime(q.penaltyRegime) && !NoPenalty(q.penalty) ==>
            r.penaltyRegime == Some(LegacyRegime(q.penalty.value)))
      && (!EmptyRegime(q.penaltyRegime) ==> r.penaltyRegime == q.penaltyRegime)
      && r.options == q.options && r.codeanalyzerType == q.codeanalyzerType
      && r.prototypeType == q.prototypeType && r.penalty == q.penalty
    ensures !IsReload(q) ==> r == WithMessageDefault(q).(penaltyRegime := defaultRegime)
  {
    var q1 := WithMessageDefault(q);
    if IsReload(q1) then
      var tcs := q1.options.value.testcases.value;
      assert q1.testSplitterRe.Some? ==> '\n' !in EscapeNewlines(q1.testSplitterRe.value) by {
        if q1.testSplitterRe.Some? {
          EscapeNewlinesSpec(q1.testSplitterRe.value, "");
        }
      }
      AppendRowsIsConcat(NoArrays, tcs);
      assert Concat(NoArrays, FlattenTestcases(tcs)) == FlattenTestcases(tcs);
      Reload(q1, prototype, courseId, AppendRows(NoArrays, tcs))
    else
      q1.(penaltyRegime := defaultRegime)
  }

  /**
   * `data_preprocessing` as written: the same, except that on reload the
   * arrays get only the partial reset before the testcases are appended;
   * a new question is prepared exactly as by the corrected version.
   */
  function DataPreprocessingAsWritten(q: EditQuestion, prototype: Option<int>, courseId: int, defaultRegime: Option<Regime>): (r: EditQuestion)
    ensures IsReload(q) ==> r.arrays == FlattenAsWritten(q.arrays, q.options.value.testcases.value)
    ensures r == DataPreprocessing(q, prototype, courseId, defaultRegime).(arrays := r.arrays)
    ensures !IsReload(q) ==> r == DataPreprocessing(q, prototype, courseId, defaultRegime)
  {
    var q1 := WithMessageDefault(q);
    if IsReload(q1) then
      Reload(q1, prototype, courseId, FlattenAsWritten(q1.arrays, q1.options.value.testcases.value))
    else
      q1.(penaltyRegime := defaultRegime)
  }

  /**
   * Preparing the form is idempotent: running `data_preprocessing` on its
   * own output changes nothing (the test splitter holds no line feed any
   * more, an empty regime with no penalty is made up as "0" again, a
   * regime made from a penalty is kept, the arrays are rebuilt).
   */
  lemma DataPreprocessingIdempotent(q: EditQuestion, prototype: Option<int>, courseId: int, defaultRegime: Option<Regime>)
    ensures var once := DataPreprocessing(q, prototype, courseId, defaultRegime);
            DataPreprocessing(once, prototype, courseId, defaultRegime) == once
  {
  }

  /**
   * The discrepancy at the level of the whole form: preparing a reloaded
   * question twice, as written, leaves the standard-input column longer
   * than the test-code column by at least the number of testcases.
   */
  lemma DataPreprocessingAsWrittenNotIdempotent(q: EditQuestion, prototype: Option<int>, courseId: int, defaultRegime: Option<Regime>)
    requires IsReload(q)
    ensures var once := DataPreprocessingAsWritten(q, prototype, courseId, defaultRegime);
            var twice := DataPreprocessingAsWritten(once, prototype, courseId, defaultRegime);
            var n := |q.options.value.testcases.value|;
            && |twice.arrays.testCode| == n
            && |twice.arrays.stdin| == |q.arrays.stdin| + 2 * n
  {
    var tcs := q.options.value.testcases.value;
    var once := DataPreprocessingAsWritten(q, prototype, courseId, defaultRegime);
    AppendRowsFirstColumns(ResetAsWritten(q.arrays), tcs);
    AppendRowsFirstColumns(ResetAsWritten(once.arrays), tcs);
  }

  // ---------------------------------------------------------------------
  // displayoptions

  /** The allowed values of a testcase's `display` field. */
  datatype Display = Show | Hide | HideIfFail | HideIfSucceed

  function DisplayName(d: Display): string
  {
    match d
    case Show => "SHOW"
    case Hide => "HIDE"
    case HideIfFail => "HIDE_IF_FAIL"
    case HideIfSucceed => "HIDE_IF_SUCCEED"
  }

  /** The display value a stored name stands for, if any. */
  function ParseDisplay(s: string): Option<Display>
  {
    if s == "SHOW" then Some(Show)
    else if s == "HIDE" then Some(Hide)
    else if s == "HIDE_IF_FAIL" then Some(HideIfFail)
    else if s == "HIDE_IF_SUCCEED" then Some(HideIfSucceed)
    else None
  }

  /** `displayoptions`: the name of every display value, each exactly once. */
  function DisplayOptions(): (names: seq<string>)
    ensures |names| == 4
    ensures forall d: Display :: DisplayName(d) in names
    ensures forall i, j :: 0 <= i < j < |names| ==> names[i] != names[j]
    ensures forall i :: 0 <= i < |names| ==> ParseDisplay(names[i]).Some?
  {
    ["SHOW", "HIDE", "HIDE_IF_FAIL", "HIDE_IF_SUCCEED"]
  }

  /** Names and values correspond one to one: the options are exactly the parseable names. */
  lemma DisplayNamesRoundTrip(d: Display, s: string)
    ensures ParseDisplay(DisplayName(d)) == Some(d)
    ensures ParseDisplay(s).Some? <==> s in DisplayOptions()
    ensures ParseDisplay(s).Some? ==> DisplayName(ParseDisplay(s).value) == s
  {
  }

  // ---------------------------------------------------------------------
  // get_file_manager

  /** A form element as the file-manager lookup sees it: type, name and value. */
  datatype Element = Element(elementType: string, name: string, value: int)

  predicate IsFileManager(e: Element, name: string)
  {
    e.elementType == "filemanager" && e.name == name
  }

  /** Index of the last file manager called `name`, or -1 when there is none. */
  function LastMatch(elements: seq<Element>, name: string): (k: int)
    ensures -1 <= k < |elements|
    ensures k >= 0 ==> IsFileManager(elements[k], name)
    ensures forall j :: k < j < |elements| ==> !IsFileManager(elements[j], name)
    decreases |elements|
  {
    if elements == [] then -1
    else if IsFileManager(elements[|elements| - 1], name) then |elements| - 1
    else
      var prefix := elements[..|elements| - 1];
      var k := LastMatch(prefix, name);
      assert forall j :: k < j < |prefix| ==> prefix[j] == elements[j];
      k
  }

  /** The value of the last file manager called `name`, or null when there is none. */
  function LastFileManager(elements: seq<Element>, name: string): (draftId: Option<int>)
    ensures draftId.None? <==> forall i :: 0 <= i < |elements| ==> !IsFileManager(elements[i], name)
    ensures draftId.Some? ==> var k := LastMatch(elements, name);
      && 0 <= k < |elements| && IsFileManager(elements[k], name) && draftId.value == elements[k].value
  {
    var k := LastMatch(elements, name);
    if k < 0 then None else Some(elements[k].value)
  }

  /** `get_file_manager`: every matching element overwrites the result, so the last one wins. */
  method GetFileManager(elements: seq<Element>, name: string) returns (draftId: Option<int>)
    ensures draftId == LastFileManager(elements, name)
  {
    draftId := None;
    for i := 0 to |elements|
      invariant draftId == LastFileManager(elements[..i], name)
    {
      assert elements[..i + 1][..i] == elements[..i];
      if IsFileManager(elements[i], name) {
        draftId := Some(elements[i].value);
      }
    }
    assert elements[..|elements|] == elements;
  }
}
