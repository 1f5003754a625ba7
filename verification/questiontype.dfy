/**
 * The question type's data handling: normalising line endings, turning
 * the edit form's parallel per-row arrays into sorted testcase records,
 * cleaning the form before saving, and flattening stored options into a
 * question instance.
 */
module QuestionType {
  import opened Php
  import opened Testcases

  /** The two characters backslash and `n`, which the single-quoted literal '\n' denotes. */
  const BackslashN: string := ['\\', 'n']

  /** `substr($s, strlen($s) - 1, 1)`: the last character as a string, or '' for ''. */
  function LastCharString(s: string): (r: string)
    ensures |r| <= 1
    ensures |r| == 1 <==> s != []
  {
    if s == [] then "" else [s[|s| - 1]]
  }

  /**
   * The loop `while (substr($s, strlen($s) - 1, 1) == $lit) drop the last
   * character`.  The one-character tail can only equal a one-character
   * literal, so with any other literal the loop never runs.
   */
  function StripTrailing(s: string, lit: string): string
    requires lit != []
    decreases |s|
  {
    if LastCharString(s) == lit then StripTrailing(s[..|s| - 1], lit) else s
  }

  /**
   * The loop only ever drops characters from the end; with a literal of
   * any length but one it drops nothing, and with a one-character literal
   * it drops exactly the trailing run of that character.
   */
  lemma {:induction false} StripTrailingSpec(s: string, lit: string)
    requires lit != []
    ensures var r := StripTrailing(s, lit);
            && |r| <= |s| && r == s[..|r|]
            && (|lit| != 1 ==> r == s)
            && (|lit| == 1 ==> r == [] || r[|r| - 1] != lit[0])
            && (|lit| == 1 ==> forall i :: |r| <= i < |s| ==> s[i] == lit[0])
    decreases |s|
  {
    if LastCharString(s) == lit {
      StripTrailingSpec(s[..|s| - 1], lit);
    }
  }

  /**
   * `filter_crs` as written: remove every carriage return, then loop while
   * the last character equals the single-quoted '\n' — a comparison that
   * never succeeds, so nothing else is removed.
   */
  function FilterCrsAsWritten(s: string): (r: string)
    ensures r == ReplaceChar(s, '\r', [])
    ensures '\r' !in r
  {
    StripTrailingSpec(ReplaceChar(s, '\r', []), BackslashN);
    ReplaceCharSpec(s, '\r', []);
    StripTrailing(ReplaceChar(s, '\r', []), BackslashN)
  }

  /**
   * `filter_crs` as its comment describes it ("remove all '\r' chars from
   * $s and also trim trailing newlines"): the same loop with the
   * line-feed character.
   */
  function FilterCrs(s: string): (r: string)
    ensures '\r' !in r
    ensures r == [] || r[|r| - 1] != '\n'
  {
    var t := ReplaceChar(s, '\r', []);
    ReplaceCharSpec(s, '\r', []);
    StripTrailingSpec(t, "\n");
    assert forall c :: c in StripTrailing(t, "\n") ==> c in t;
    StripTrailing(t, "\n")
  }

  /**
   * The corrected filter's result has no carriage return, does not end in
   * a line feed, and is the carriage-return-free text minus a run of
   * trailing line feeds.
   */
  lemma FilterCrsSpec(s: string)
    ensures var r := FilterCrs(s);
            && '\r' !in r
            && (r == [] || r[|r| - 1] != '\n')
            && var t := ReplaceChar(s, '\r', []);
               |r| <= |t| && r == t[..|r|] && forall i :: |r| <= i < |t| ==> t[i] == '\n'
  {
    var t := ReplaceChar(s, '\r', []);
    var r := StripTrailing(t, "\n");
    ReplaceCharSpec(s, '\r', []);
    StripTrailingSpec(t, "\n");
    assert forall c :: c in r ==> c in t;
  }

  /** The discrepancy: a trailing line feed survives the code as written. */
  lemma FilterCrsAsWrittenKeepsTrailingNewline()
    ensures FilterCrsAsWritten("a\n") == "a\n"
    ensures FilterCrs("a\n") == "a"
  {
    FilterCrsSpec("a\n");
    assert ReplaceChar("a\n", '\r', []) == "a\n" by {
      assert '\r' !in "a\n";
    }
    assert LastCharString("a\n") == "\n";
    assert "a\n"[..1] == "a";
  }

  /**
   * Which `filter_crs` the copy uses: the code as written, or the
   * corrected one.  Every property of the copy below holds for both.
   */
  datatype Filter = AsWritten | Corrected

  /** `filter_crs` in the chosen version. */
  function ApplyFilter(flt: Filter, s: string): string
  {
    match flt
    case AsWritten => FilterCrsAsWritten(s)
    case Corrected => FilterCrs(s)
  }

  /** Blankness of a prefix when the dropped suffix is blank. */
  lemma BlankPrefix(t: string, r: string)
    requires |r| <= |t| && r == t[..|r|]
    requires forall i :: |r| <= i < |t| ==> IsTrimSpace(t[i])
    ensures AllTrimSpace(r) <==> AllTrimSpace(t)
  {
  }

  /**
   * Whether a field trims to empty after filtering does not depend on
   * which `filter_crs` is used: both agree with the raw field being all
   * whitespace.
   */
  lemma FilteredBlankness(s: string)
    ensures Trim(FilterCrs(s)) == [] <==> AllTrimSpace(s)
    ensures Trim(FilterCrsAsWritten(s)) == [] <==> AllTrimSpace(s)
  {
    var t := ReplaceChar(s, '\r', []);
    FilterCrsSpec(s);
    RemoveTrimSpaceKeepsBlankness(s, '\r');
    BlankPrefix(t, FilterCrs(s));
  }

  /**
   * The edit form's submitted testcase columns.  Text columns are indexed
   * by row; check-box columns hold only the rows whose box is ticked, and
   * `testType` only the rows where it is set.  `ordering` holds the rows'
   * `intval` results.
   */
  datatype TestcaseForm = TestcaseForm(
    questionId: Option<int>,
    testCode: seq<string>,
    stdin: seq<string>,
    expected: seq<string>,
    extra: seq<string>,
    testType: map<nat, int>,
    useAsExample: set<nat>,
    display: seq<string>,
    hideRestIfFail: set<nat>,
    mark: seq<string>,
    ordering: seq<int>)

  /** `$numtests`: zero for an empty `testcode` column, else its length. */
  function NumTests(f: TestcaseForm): nat
  {
    |f.testCode|
  }

  /**
   * What the loop reads: the `expected` column matches `testcode` in length
   * (the source asserts it when there are tests) and every other indexed
   * column has an entry for each row.
   */
  predicate WellFormed(f: TestcaseForm)
  {
    var n := NumTests(f);
    && (n > 0 ==> |f.expected| == n)
    && |f.stdin| >= n && |f.extra| >= n && |f.display| >= n
    && |f.mark| >= n && |f.ordering| >= n
  }

  /** Applies `filter_crs` to every entry of a text column. */
  function FilterColumn(flt: Filter, column: seq<string>): (r: seq<string>)
    ensures |r| == |column|
    ensures forall i :: 0 <= i < |column| ==> r[i] == ApplyFilter(flt, column[i])
  {
    seq(|column|, i requires 0 <= i < |column| => ApplyFilter(flt, column[i]))
  }

  /** The form with its four text columns filtered, as the loop reads them. */
  function FilteredForm(flt: Filter, f: TestcaseForm): (g: TestcaseForm)
    ensures NumTests(g) == NumTests(f)
    ensures WellFormed(f) ==> WellFormed(g)
  {
    f.(testCode := FilterColumn(flt, f.testCode), stdin := FilterColumn(flt, f.stdin),
       expected := FilterColumn(flt, f.expected), extra := FilterColumn(flt, f.extra))
  }

  /** A row whose four text fields hold nothing but whitespace. */
  predicate IsBlankRow(f: TestcaseForm, i: nat)
    requires WellFormed(f) && i < NumTests(f)
  {
    && AllTrimSpace(f.testCode[i]) && AllTrimSpace(f.stdin[i])
    && AllTrimSpace(f.expected[i]) && AllTrimSpace(f.extra[i])
  }

  /**
   * The loop's skip test — filtered test code, standard input, expected
   * output and extra field all trim to empty — holds exactly for rows that
   * are blank in the submitted form, and so in the filtered form.
   */
  lemma SkipTestIsBlankRow(flt: Filter, f: TestcaseForm, i: nat)
    requires WellFormed(f) && i < NumTests(f)
    ensures (&& Trim(ApplyFilter(flt, f.testCode[i])) == []
             && Trim(ApplyFilter(flt, f.stdin[i])) == []
             && Trim(ApplyFilter(flt, f.expected[i])) == []
             && Trim(ApplyFilter(flt, f.extra[i])) == [])
            <==> IsBlankRow(f, i)
    ensures IsBlankRow(FilteredForm(flt, f), i) <==> IsBlankRow(f, i)
  {
    FilteredBlankness(f.testCode[i]);
    FilteredBlankness(f.stdin[i]);
    FilteredBlankness(f.expected[i]);
    FilteredBlankness(f.extra[i]);
  }

  /**
   * The testcase the loop builds from row `i` of the filtered form.  The
   * mark test `trim(mark) == ''` is written as "the mark is all
   * whitespace", which `Trim`'s contract shows to be the same condition.
   */
  function BuildTestcase(g: TestcaseForm, validation: bool, i: nat): Testcase
    requires WellFormed(g) && i < NumTests(g)
  {
    Testcase(
      if validation then Some(i) else None,
      if g.questionId.Some? then g.questionId.value else 0,
      if i in g.testType then g.testType[i] else 0,
      g.testCode[i],
      g.stdin[i],
      g.expected[i],
      g.extra[i],
      i in g.useAsExample,
      g.display[i],
      i in g.hideRestIfFail,
      if AllTrimSpace(g.mark[i]) then DefaultMark else ParsedMark(g.mark[i]),
      g.ordering[i])
  }

  /**
   * The defaults the loop applies to a kept row: the mark is 1 when it is
   * blank, the test type 0 when unset, the check-box flags true exactly
   * when the row was ticked, the question id 0 when the question has none,
   * the row number present only when validating; text fields are the
   * filtered form fields and carry no carriage return.
   */
  lemma BuildTestcaseDefaults(flt: Filter, f: TestcaseForm, validation: bool, i: nat)
    requires WellFormed(f) && i < NumTests(f)
    ensures var t := BuildTestcase(FilteredForm(flt, f), validation, i);
      && (t.rownum.Some? <==> validation)
      && (t.rownum.Some? ==> t.rownum.value == i)
      && t.questionId == (if f.questionId.Some? then f.questionId.value else 0)
      && (i !in f.testType ==> t.testType == 0)
      && (i in f.testType ==> t.testType == f.testType[i])
      && t.testCode == ApplyFilter(flt, f.testCode[i]) && '\r' !in t.testCode
      && t.stdin == ApplyFilter(flt, f.stdin[i]) && '\r' !in t.stdin
      && t.expected == ApplyFilter(flt, f.expected[i]) && '\r' !in t.expected
      && t.extra == ApplyFilter(flt, f.extra[i]) && '\r' !in t.extra
      && (t.useAsExample <==> i in f.useAsExample)
      && (t.hideRestIfFail <==> i in f.hideRestIfFail)
      && t.display == f.display[i]
      && (t.mark == DefaultMark <==> Trim(f.mark[i]) == [])
      && (t.mark != DefaultMark ==> t.mark == ParsedMark(f.mark[i]))
      && t.ordering == f.ordering[i]
  {
  }

  /**
   * The rows the loop keeps among the first `n`: exactly the non-blank
   * ones, in increasing row order.
   */
  function KeptIndices(g: TestcaseForm, n: nat): (rows: seq<nat>)
    requires WellFormed(g) && n <= NumTests(g)
    ensures forall j :: 0 <= j < |rows| ==> rows[j] < n
  {
    if n == 0 then []
    else
      var prefix := KeptIndices(g, n - 1);
      if IsBlankRow(g, n - 1) then prefix else prefix + [n - 1]
  }

  /**
   * The kept rows among the first `n` are the non-blank ones below `n`,
   * each once, in strictly increasing order.
   */
  lemma {:induction false} KeptIndicesSpec(g: TestcaseForm, n: nat)
    requires WellFormed(g) && n <= NumTests(g)
    ensures var rows := KeptIndices(g, n);
      && |rows| <= n
      && (forall i :: i in rows <==> 0 <= i < n && !IsBlankRow(g, i))
      && (forall j, k :: 0 <= j < k < |rows| ==> rows[j] < rows[k])
  {
    if n > 0 {
      KeptIndicesSpec(g, n - 1);
      var rows, prefix := KeptIndices(g, n), KeptIndices(g, n - 1);
      if !IsBlankRow(g, n - 1) {
        assert rows == prefix + [n - 1];
        forall i ensures i in rows <==> i in prefix || i == n - 1 {
        }
      }
    }
  }

  /** The testcases the loop collects from the first `n` rows, in row order. */
  function KeptRowsUpTo(g: TestcaseForm, validation: bool, n: nat): (kept: seq<Testcase>)
    requires WellFormed(g) && n <= NumTests(g)
    ensures |kept| <= n
  {
    if n == 0 then []
    else
      var prefix := KeptRowsUpTo(g, validation, n - 1);
      if IsBlankRow(g, n - 1) then prefix else prefix + [BuildTestcase(g, validation, n - 1)]
  }

  /** The `j`-th collected testcase is built from the `j`-th kept row. */
  lemma {:induction false} KeptRowsFromKeptIndices(g: TestcaseForm, validation: bool, n: nat)
    requires WellFormed(g) && n <= NumTests(g)
    ensures |KeptRowsUpTo(g, validation, n)| == |KeptIndices(g, n)|
    ensures forall j :: 0 <= j < |KeptIndices(g, n)| ==>
              KeptRowsUpTo(g, validation, n)[j] == BuildTestcase(g, validation, KeptIndices(g, n)[j])
  {
    if n > 0 {
      KeptRowsFromKeptIndices(g, validation, n - 1);
      var rows, prefixRows := KeptIndices(g, n), KeptIndices(g, n - 1);
      var kept, prefix := KeptRowsUpTo(g, validation, n), KeptRowsUpTo(g, validation, n - 1);
      if !IsBlankRow(g, n - 1) {
        assert rows == prefixRows + [n - 1];
        assert kept == prefix + [BuildTestcase(g, validation, n - 1)];
        forall j | 0 <= j < |rows| ensures kept[j] == BuildTestcase(g, validation, rows[j]) {
          if j < |prefixRows| {
            assert kept[j] == prefix[j];
            assert rows[j] == prefixRows[j];
          }
        }
      }
    }
  }

  /** The testcases built from all kept rows of the submitted form, in row order. */
  function KeptRows(flt: Filter, f: TestcaseForm, validation: bool): seq<Testcase>
    requires WellFormed(f)
  {
    KeptRowsUpTo(FilteredForm(flt, f), validation, NumTests(f))
  }

  /**
   * A submitted row is kept exactly when it is not blank, and the kept
   * testcases are the rows' testcases in row order.
   */
  lemma KeptRowsAreNonBlankRows(flt: Filter, f: TestcaseForm, validation: bool)
    requires WellFormed(f)
    ensures var rows := KeptIndices(FilteredForm(flt, f), NumTests(f));
            && (forall i :: i in rows <==> 0 <= i < NumTests(f) && !IsBlankRow(f, i))
            && |KeptRows(flt, f, validation)| == |rows|
            && forall j :: 0 <= j < |rows| ==>
                 KeptRows(flt, f, validation)[j] == BuildTestcase(FilteredForm(flt, f), validation, rows[j])
  {
    var g := FilteredForm(flt, f);
    KeptIndicesSpec(g, NumTests(f));
    KeptRowsFromKeptIndices(g, validation, NumTests(f));
    forall i | 0 <= i < NumTests(f) {
      SkipTestIsBlankRow(flt, f, i);
    }
  }

  /**
   * The loop of `copy_testcases_from_form`, run over the filtered columns:
   * one testcase per non-blank row, collected in row order.
   */
  method CollectTestcases(g: TestcaseForm, validation: bool) returns (kept: seq<Testcase>)
    requires WellFormed(g)
    ensures kept == KeptRowsUpTo(g, validation, NumTests(g))
  {
    var numTests := NumTests(g);
    kept := [];
    var i := 0;
    while i < numTests
      invariant 0 <= i <= numTests
      invariant kept == KeptRowsUpTo(g, validation, i)
    {
      var blank := IsBlankRow(g, i);
      if !blank {
        kept := kept + [BuildTestcase(g, validation, i)];
      }
      i := i + 1;
    }
  }

  /**
   * `copy_testcases_from_form`: the testcases of the non-blank rows, in
   * form order, stably sorted by ordering — so sorted, a permutation of
   * those testcases, and with equal orderings left in form order (the
   * contract of `SortByOrdering`); at most one per row, none when the
   * form has no rows.
   */
  method CopyTestcasesFromForm(flt: Filter, f: TestcaseForm, validation: bool) returns (testcases: seq<Testcase>)
    requires WellFormed(f)
    ensures testcases == SortByOrdering(KeptRows(flt, f, validation))
    ensures |testcases| <= NumTests(f)
    ensures SortedByOrdering(testcases)
    ensures NumTests(f) == 0 ==> testcases == []
  {
    var kept := CollectTestcases(FilteredForm(flt, f), validation);
    testcases := SortByOrdering(kept);
  }

  /**
   * `clean_question_form`: the `sandbox` property becomes null exactly when
   * its trimmed value is `DEFAULT`; every other property, and a sandbox of
   * any other value, is left as it was.
   */
  function CleanQuestionForm(question: Object<string>): (r: Object<string>)
    ensures r.Keys == question.Keys
    ensures forall f :: f in question && f != "sandbox" ==> r[f] == question[f]
    ensures "sandbox" in question ==>
              (r["sandbox"] == None <==> question["sandbox"] == None || Trim(question["sandbox"].value) == "DEFAULT")
    ensures "sandbox" in question && r["sandbox"] != None ==> r["sandbox"] == question["sandbox"]
  {
    if IsSet(question, "sandbox") && Trim(question["sandbox"].value) == "DEFAULT" then
      question["sandbox" := None]
    else
      question
  }

  /** Cleaning twice is cleaning once. */
  lemma CleanQuestionFormIdempotent(question: Object<string>)
    ensures CleanQuestionForm(CleanQuestionForm(question)) == CleanQuestionForm(question)
  {
  }

  /** The comparison is with the trimmed text but is case-sensitive. */
  lemma CleanQuestionFormExamples()
    ensures CleanQuestionForm(map["sandbox" := Some(" DEFAULT\n")])["sandbox"] == None
    ensures CleanQuestionForm(map["sandbox" := Some("default")])["sandbox"] == Some("default")
  {
    var padded := " DEFAULT\n";
    assert TrimStart(padded, 0) == 1;
    assert TrimEnd(padded, 1, |padded|) == 8;
    assert padded[1..8] == "DEFAULT";
  }

  /**
   * The property table after merging option fields into a question without
   * overwriting: set properties stay, unset ones take the option's value,
   * properties with no option stay as they are.
   */
  function MergeUnset<V>(question: Object<V>, options: Object<V>): (r: Object<V>)
    ensures r.Keys == question.Keys + options.Keys
    ensures forall f :: IsSet(question, f) ==> r[f] == question[f]
    ensures forall f :: f in options && !IsSet(question, f) ==> r[f] == options[f]
    ensures forall f :: f in question && f !in options ==> r[f] == question[f]
  {
    map f | f in question.Keys + options.Keys ::
      if f in options && !IsSet(question, f) then options[f] else question[f]
  }

  /** Merging the same options again changes nothing. */
  lemma MergeUnsetIdempotent<V>(question: Object<V>, options: Object<V>)
    ensures MergeUnset(MergeUnset(question, options), options) == MergeUnset(question, options)
  {
  }

  /**
   * `initialise_question_instance`: the loop over the option fields, in
   * whatever order the object yields them, copying a field only when the
   * question does not already have it set.
   */
  method InitialiseQuestionInstance<V>(question: Object<V>, options: Object<V>) returns (r: Object<V>)
    ensures r == MergeUnset(question, options)
  {
    r := question;
    var pending := options.Keys;
    while pending != {}
      invariant pending <= options.Keys
      invariant r == MergeUnset(question, options - pending)
      decreases pending
    {
      var f :| f in pending;
      if !IsSet(r, f) {
        r := r[f := options[f]];
      }
      pending := pending - {f};
    }
    assert options - {} == options;
  }

  /** A label in the attachment-count menu: a language string or literal text. */
  datatype Label = LangString(key: string) | Literal(text: string)

  /**
   * `attachment_options`: the menu of allowed attachment counts in display
   * order — none, one to three (labelled by their digit), unlimited (-1).
   */
  function AttachmentOptions(): (menu: seq<(int, Label)>)
    ensures |menu| == 5
    ensures forall i, j :: 0 <= i < j < |menu| ==> menu[i].0 != menu[j].0
    ensures forall i :: 0 <= i < |menu| ==> -1 <= menu[i].0 <= 3
    ensures forall i :: 0 <= i < |menu| && menu[i].0 > 0 ==> menu[i].1 == Literal([(48 + menu[i].0) as char])
    ensures forall i :: 0 <= i < |menu| && menu[i].0 <= 0 ==> menu[i].1.LangString?
    ensures forall i :: 0 <= i < |menu| && menu[i].0 == 0 ==> menu[i].1 == LangString("no")
    ensures forall i :: 0 <= i < |menu| && menu[i].0 == -1 ==> menu[i].1 == LangString("unlimited")
    ensures menu[0].0 == 0 && menu[4].0 == -1
    ensures forall i :: 1 <= i <= 3 ==> menu[i].0 == i
  {
    [(0, LangString("no")), (1, Literal("1")), (2, Literal("2")), (3, Literal("3")), (-1, LangString("unlimited"))]
  }
}
