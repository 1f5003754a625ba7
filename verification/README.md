# CodeAnalyzer question type — a Dafny model

A model of the data handling in the Moodle `codeanalyzer` question-type
plugin, with proofs of what that code promises. The plugin lets a teacher
write a programming question that has a set of testcases. The model covers:

- **The runtime question** (`question.php`): validating a student's
  response, deciding whether a response is gradable or complete,
  comparing two responses, summarising a response, and the
  validation-error message.
- **The question type** (`questiontype.php`):
  - `filter_crs`, which normalises line endings;
  - `copy_testcases_from_form`, which turns the edit form's parallel
    per-row arrays into testcase records. It drops blank rows, applies
    defaults and sorts stably by `ordering`;
  - the testcase diff in `save_question_options`, which reuses old row
    ids in id order, inserts the surplus testcases and deletes the
    surplus rows;
  - `clean_question_form`, `initialise_question_instance` and
    `attachment_options`.
- **The edit form** (`edit_codeanalyzer_form.php`):
  - the testcase-flattening and defaulting part of `data_preprocessing`;
  - `newline_hack`, which protects a text area's leading line feed;
  - `displayoptions`;
  - `get_file_manager`, over an abstract list of form elements.

Modules:

| file | module | contents |
|---|---|---|
| `php.dfy` | `Php` | The PHP semantics the code relies on:<br>• `null` as `Option`<br>• objects as property tables with `isset`<br>• `trim`'s default character set<br>• `str_replace` with a one-character search string |
| `constants.dfy` | `Constants` | `FUNC_MIN_LENGTH` |
| `question.dfy` | `Question` | Responses are `map<string, string>`. The language-pack messages are the tags of a `Message` datatype, and `NoError` stands for `''`. |
| `testcases.dfy` | `Testcases` | The testcase record and the stable sort by `ordering` (insertion sort) |
| `questiontype.dfy` | `QuestionType` | `filter_crs`, `copy_testcases_from_form`, `clean_question_form`, `initialise_question_instance`, `attachment_options` |
| `testcase_table.dfy` | `TestcaseTable` | The testcase table as a map from row id to record. The database's auto-increment key is a counter. |
| `edit_form.dfy` | `EditForm` | `data_preprocessing`, `newline_hack`, `displayoptions`, `get_file_manager` |

Each operation except `attachment_options`, a constant menu, is paired
with a partner and a lemma linking the two:

- **An inverse:**
  - a browser drops a leading line feed, and `newline_hack` survives
    that;
  - flattened arrays read back to the testcases;
  - saving, then loading in id order, gives back the saved testcases;
  - display names parse back to display values.
- **A preserved invariant:** the saved table stays valid, and other
  questions' rows are left alone.
- **An independent reference definition:**
  - `get_file_manager`'s loop matches the last-match function;
  - `initialise_question_instance`'s loop matches the merge;
  - the sort is a sorted, stable permutation.
- **A converse:** same responses validate alike, and a changed `answer` or
  `language` is never taken for the same response.
- **Idempotence:** cleaning the form, merging options, escaping the test
  splitter and preparing the form are each idempotent.

`questiontype.php` has a comment saying that `filter_crs` "also trim[s]
trailing newlines". The code does not do this, because it compares with a
single-quoted `'\n'`. The model follows the code in
`QuestionType.FilterCrsAsWritten`, and `QuestionType.FilterCrs` has the
behaviour the comment describes (see Findings). The copy from the form
takes the filter as a parameter, so its properties are proved for both.

## Model

| member | source | states |
|---|---|---|
| Question.ValidateWithMinLength | question.php:105-114 | With any minimum length:<br>• "answer required" exactly when `answer` is missing or empty<br>• "too short" exactly when it is non-empty and shorter than the minimum<br>• no error exactly when it is non-empty and at least the minimum long<br>• never "unknown error" |
| Question.ValidateResponse | question.php:105-114 | A response is valid exactly when it has a non-empty `answer`. Every invalid response gets "answer required", and "too short" is never produced. |
| Question.TooShortReachableAboveOne | question.php:110-111 | With any minimum length above one, some response does get the "too short" message. |
| Question.TooShortUnreachable | question.php:110-111 | With the configured minimum of one, no response gets the "too short" message. |
| Question.WhitespaceAnswerIsValid | question.php:108-113 | A non-empty answer made only of whitespace is gradable, because nothing is trimmed. |
| Question.IsGradableResponse | question.php:99-103 | Gradable exactly when the response has an `answer` and it is non-empty |
| Question.IsCompleteResponse | question.php:94-97 | Complete exactly when the answer is at least `FUNC_MIN_LENGTH` long, which is the same as gradable |
| Question.IsSameResponse | question.php:115-130 | Two responses that are the same get the same validation message and the same gradability. Responses whose `answer` or `language` differ (a missing key reading as blank) are not the same, so a changed submission is regraded. |
| Question.ChangedSubmissionIsNotSame | question.php:115-130 | Giving `answer` or `language` a different value in a response always yields a response that is not the same. |
| Question.SameResponseIsEquivalence | question.php:124-130 | Sameness is reflexive, symmetric and transitive. |
| Question.SameResponseIgnoresOtherKeys | question.php:124-130 | Setting or removing any key other than `answer` and `language` does not change sameness. |
| Question.SameResponseMissingIsBlank | question.php:126-129 | A missing `answer` or `language` key is the same as an empty value. |
| Question.SummariseResponse | question.php:89-92 | The summary is present exactly when `answer` is, and then it equals the answer. |
| Question.SummaryAgreesWithValidation | question.php:89-114 | "Answer required" is given exactly when the summary is null or empty. |
| Question.GetCorrectResponse | question.php:146-149 | The result is non-null exactly when the question's `answer` is set, and then it is that answer. |
| Question.GetValidationError | question.php:151-159 | The result is never empty. It is "unknown error" exactly for gradable responses; otherwise it is the validation message. |
| Testcases.InsertByOrdering | questiontype.php:176-182 | Inserting keeps a sorted list sorted and adds exactly the one element. The new element goes before every element with an equal `ordering`. |
| Testcases.SortByOrdering | questiontype.php:176-182 | The result has the input's length, is sorted by `ordering`, and is a permutation of the input. Elements with equal `ordering` keep their relative order. |
| Testcases.SortOfSortedIsIdentity | questiontype.php:176-182 | Sorting a list that is already sorted returns it unchanged. |
| QuestionType.StripTrailingSpec | questiontype.php:243-245 | The strip loop (`StripTrailing`) only drops characters from the end. With a literal that is not one character long it drops nothing. With a one-character literal it drops exactly the trailing run of that character. |
| QuestionType.FilterCrsAsWritten | questiontype.php:240-247 | `filter_crs` as written: the input with every carriage return removed, and nothing else changed |
| QuestionType.FilterCrsAsWrittenKeepsTrailingNewline | questiontype.php:243-245 | As written, `"a\n"` keeps its line feed; corrected, it becomes `"a"`. |
| QuestionType.FilterCrs | questiontype.php:239-247 | The corrected filter leaves no carriage return and no trailing line feed. |
| QuestionType.FilterCrsSpec | questiontype.php:239-247 | The corrected filter's result:<br>• has no carriage return<br>• does not end in a line feed<br>• is the carriage-return-free text minus a run of trailing line feeds |
| QuestionType.FilteredBlankness | questiontype.php:150-157 | A field trims to empty after either filter exactly when the raw field is all whitespace. |
| QuestionType.FilteredForm | questiontype.php:150-153 | Filtering every text column, with either filter, keeps the row count and well-formedness. |
| QuestionType.SkipTestIsBlankRow | questiontype.php:154-157 | With either filter, the loop's skip test holds exactly for rows that are blank in the submitted form, and equally in the filtered form. |
| QuestionType.BuildTestcaseDefaults | questiontype.php:158-172 | The testcase `BuildTestcase` makes from a row, with either filter:<br>• `rownum` only when validating<br>• question id 0 when unset; test type 0 when unset<br>• check-box flags true exactly when ticked<br>• mark is the default exactly when it trims to empty<br>• text fields are the fields through the chosen filter, with no carriage return<br>• display and ordering copied |
| QuestionType.KeptIndicesSpec | questiontype.php:149-157 | The kept rows are exactly the non-blank rows, each once, in increasing row order, and there are at most as many as rows. |
| QuestionType.KeptRowsFromKeptIndices | questiontype.php:149-174 | Entry `j` of the collected testcases is the testcase built from the `j`-th kept row. |
| QuestionType.KeptRowsAreNonBlankRows | questiontype.php:149-174 | With either filter, a submitted row is kept exactly when it is not blank, and `KeptRows` is those rows' testcases, in row order. |
| QuestionType.KeptRowsUpTo | questiontype.php:149-174 | At most one testcase is collected per form row. |
| QuestionType.CollectTestcases | questiontype.php:149-174 | The loop collects exactly the testcases of the non-blank rows, in row order. |
| QuestionType.CopyTestcasesFromForm | questiontype.php:140-185 | With either filter, the result is the kept rows' testcases, in form order, stably sorted by `ordering`. By the sort's contract it is a permutation of them, and rows with equal `ordering` keep their form order. It holds at most one testcase per form row, is sorted, and is empty when the form has no tests. |
| QuestionType.CleanQuestionForm | questiontype.php:127-135 | `sandbox` becomes null exactly when its trimmed value is `DEFAULT` (or it was already null). Every other property, and every other sandbox value, is unchanged. |
| QuestionType.CleanQuestionFormIdempotent | questiontype.php:132-134 | Cleaning twice is the same as cleaning once. |
| QuestionType.CleanQuestionFormExamples | questiontype.php:132-134 | The comparison uses the trimmed text: `" DEFAULT\n"` is cleared. It is case-sensitive: `"default"` is kept. |
| QuestionType.MergeUnset | questiontype.php:198-202 | After merging:<br>• set properties keep their value<br>• an unset property takes the option's value<br>• properties without an option are unchanged<br>• the keys are the union of both sets of keys |
| QuestionType.MergeUnsetIdempotent | questiontype.php:198-202 | Merging the same options a second time changes nothing. |
| QuestionType.InitialiseQuestionInstance | questiontype.php:195-203 | The field-by-field loop, whatever the field order, gives the merge above. |
| QuestionType.AttachmentOptions | questiontype.php:252-261 | Five distinct counts, in the order 0, 1, 2, 3, -1. Positive counts are labelled by their digit, 0 by the language string `no` and -1 by `unlimited`. |
| TestcaseTable.QuestionIds | questiontype.php:85-86 | The question's old ids: exactly the ids below the counter whose row belongs to the question, in strictly increasing order. |
| TestcaseTable.IdsBelow | questiontype.php:85-86 | The question's row ids are listed in strictly increasing order, exactly those whose row belongs to the question. |
| TestcaseTable.LoadTestcases | questiontype.php:85-86 | Loading returns one record per row of the question: entry `j` is the row under the question's `j`-th id in ascending order. |
| TestcaseTable.RewriteCounter | questiontype.php:90-104 | The loops keep every id below the counter. The counter advances once per inserted testcase. |
| TestcaseTable.Rewrite | questiontype.php:90-104 | The counter advances once per testcase left over after the pending ids run out. |
| TestcaseTable.RewriteUntouched | questiontype.php:90-104 | Ids below the old counter that are not pending are neither added nor removed, and their rows are unchanged. |
| TestcaseTable.RewriteReused | questiontype.php:90-93 | Testcase `j` is written under pending id `j` while both last. |
| TestcaseTable.RewriteDropped | questiontype.php:102-104 | Pending ids left over once the testcases run out are deleted. |
| TestcaseTable.RewriteInserted | questiontype.php:94-97 | Testcases beyond the pending ids are stored in order under fresh ids, stamped with the question id. |
| TestcaseTable.RewriteAppends | questiontype.php:94-97 | With no old ids, the testcases are stored under consecutive fresh ids. |
| TestcaseTable.SaveQuestionTestcases | questiontype.php:83-104 | Saving advances the counter by the number of testcases beyond the question's old rows. |
| TestcaseTable.SaveCounter | questiontype.php:83-104 | Saving keeps the table valid and advances the counter by the number of surplus testcases. |
| TestcaseTable.SaveReusesOldIds | questiontype.php:90-93 | Testcase `j` overwrites the question's `j`-th oldest row while both last. |
| TestcaseTable.SaveDeletesSurplus | questiontype.php:102-104 | The question's old rows beyond the number of testcases are deleted. |
| TestcaseTable.SaveInsertsSurplus | questiontype.php:94-97 | Testcases beyond the old rows are inserted in order under fresh ids, with the question's id. |
| TestcaseTable.SaveKeepsOtherQuestions | questiontype.php:83-104 | Rows of every other question are left as they were. |
| TestcaseTable.SavedIdsSound | questiontype.php:83-104 | When every testcase already carries the question's id, every expected id (reused old ids, then fresh ids) belongs to the question after saving. |
| TestcaseTable.SavedIdsComplete | questiontype.php:83-104 | Every id the question holds after saving is an expected id. |
| TestcaseTable.SavedIdComplete | questiontype.php:83-104 | A single id the question holds after saving is an expected id. |
| TestcaseTable.SavedIds | questiontype.php:83-104 | When every testcase already carries the question's id: after saving, the question's ids in ascending order are exactly the reused old ids followed by the fresh ids. |
| TestcaseTable.SavedRowAt | questiontype.php:90-97 | When the `j`-th testcase carries the question's id, the row under the `j`-th expected id is that testcase. |
| TestcaseTable.SaveThenLoad | questiontype.php:83-104 | When every testcase already carries the question's id, saving then loading gives back exactly the saved testcases, in order, so the question ends with one row per testcase. |
| TestcaseTable.SaveSameCountKeepsIds | questiontype.php:90-104 | With as many testcases as old rows, no id is added or removed and the counter does not move. |
| EditForm.NewlineHack | edit_codeanalyzer_form.php:255-258 | The result is one character longer, starts with a line feed, and is followed by the input. |
| EditForm.NewlineHackSurvivesBrowser | edit_codeanalyzer_form.php:249-258 | Whatever the text, the hacked text comes back from the browser intact. |
| EditForm.BrowserDropsLeadingNewline | edit_codeanalyzer_form.php:249-254 | Without the hack, text is changed exactly when it starts with a line feed. |
| EditForm.EscapeNewlines | edit_codeanalyzer_form.php:142-144 | The escaped test splitter holds no line feed, one without a line feed is unchanged, and a line feed becomes the two characters `\n`. |
| EditForm.EscapeNewlinesSpec | edit_codeanalyzer_form.php:142-144 | The escaped test splitter:<br>• holds no line feed<br>• is unchanged when it had none<br>• escapes each piece separately<br>• turns a line feed into the two characters `\n`<br>• is unchanged by escaping twice<br>Together these fix the result for every input. |
| EditForm.FlattenTestcases | edit_codeanalyzer_form.php:113-123 | The flattened arrays are aligned, with one entry per testcase. |
| EditForm.AppendRowsIsConcat | edit_codeanalyzer_form.php:113-123 | The loop (`AppendRows`) appends each array's flattened column after what the array held. |
| EditForm.FlattenRoundTrip | edit_codeanalyzer_form.php:113-123 | Flattening gives aligned arrays with one entry per testcase, in order. The text fields read back through the browser to the originals; the other fields are copied. |
| EditForm.FlattenAsWrittenMisaligns | edit_codeanalyzer_form.php:106-121 | As written (`FlattenAsWritten`, the partial reset `ResetAsWritten` followed by the loop), a `stdin` array already holding an entry ends one entry longer than `testcode`, so the arrays are not aligned. |
| EditForm.FlattenAsWrittenAgreesOnFreshArrays | edit_codeanalyzer_form.php:106-123 | On arrays that start empty, the code as written and the corrected flattening agree. |
| EditForm.DataPreprocessing | edit_codeanalyzer_form.php:81-165 | The broken-question message defaults to '' when unset and is otherwise kept, unless the prototype is missing. On reload (`Reload`):<br>• flattened testcases; recorded prototype<br>• missing-prototype message<br>• copied customise, saved prototype type and course<br>• `typename` by prototype type<br>• the test splitter present exactly when it was, escaped<br>• regime "0" for an empty regime with no penalty, the legacy regime made from a non-zero penalty, and otherwise kept<br>• options, question type, prototype type and penalty unchanged<br>A new question only gets the message default and the default regime. |
| EditForm.DataPreprocessingAsWritten | edit_codeanalyzer_form.php:81-165 | The code as written differs from the corrected version only in the arrays. On reload they come from the partial reset; a new question's arrays are left as they were, so its result is the corrected one. |
| EditForm.DataPreprocessingIdempotent | edit_codeanalyzer_form.php:81-165 | Preparing the form on its own output changes nothing. |
| EditForm.DataPreprocessingAsWrittenNotIdempotent | edit_codeanalyzer_form.php:106-123 | As written, preparing a reloaded question twice leaves `stdin` longer than `testcode` by at least the number of testcases. |
| EditForm.DisplayOptions | edit_codeanalyzer_form.php:261-264 | Four distinct names, one for each display value, each of which parses. |
| EditForm.DisplayNamesRoundTrip | edit_codeanalyzer_form.php:261-264 | A display value's name parses back to it. A string parses exactly when it is one of the options. |
| EditForm.LastMatch | edit_codeanalyzer_form.php:271-276 | The index of a matching file manager, with no match after it, or -1 |
| EditForm.LastFileManager | edit_codeanalyzer_form.php:267-278 | The result is null exactly when no element matches. Otherwise it is the value of the last match. |
| EditForm.GetFileManager | edit_codeanalyzer_form.php:267-278 | The loop, in which every match overwrites the result, returns the last match's value, or null. |

## Left out

**Stubs and external code**
- `grade_response` and `get_sandbox`: stubs that return nothing (`question.php:133-144`).
- `start_attempt` and `apply_attempt_state`: they use `mt_rand`, `serialize` and a user lookup in the database.
- `renderer.php`, `settings.php` and the language pack: HTML, admin settings and a string table. The messages are abstract tags.
- `question_utils::arrays_same_at_key_missing_is_blank` is not part of this model. `Question.IsSameResponse` takes its behaviour from its name: a missing key reads as `''`.
- `make_question_from_form_data`: the prototype it finds is a parameter of `EditForm.DataPreprocessing`. The same goes for `$COURSE->id` and the site's default penalty regime from `get_config`.
- `get_prototype` and `set_inherited_fields`, which `make_question_from_form_data` calls (`edit_codeanalyzer_form.php:208-209`), are not part of this model; `questiontype.php` does not define them. If they are missing from the class hierarchy, the reload branch stops with an error before any of its writes, a path the model does not include.
- `get_merged_ui_params`: it loads a question from the question bank.
- `parent::` calls into Moodle's question type, and the `extra_question_fields` list that `clean_question_form` discards.
- QuestionType.CleanQuestionForm: the error path of `array_shift($this->extra_question_fields())` (`questiontype.php:129-130`) is not modelled. This class does not define `extra_question_fields`, and Moodle's base question type returns `null` there. On PHP 8 `array_shift(null)` throws a `TypeError` before the sandbox test, which would stop `save_question_options` and `make_question_from_form_data`; PHP 7 only warns. The model assumes the call returns and cleans only the sandbox.
- `save_question` and its `isnew` flag.

**Database and files**
- The database is an in-memory table. `insert_record` takes the next counter value.
- File areas: `move_files`, `file_save_draft_area_files`, `file_prepare_draft_area` and `file_get_submitted_draft_itemid`, including the draft-area loop at the end of `data_preprocessing`.
- Context lookups: `question_context` and `question_contextid`.

**Numbers and strings**
- Floating point:
  - marks are kept as the typed text: `floatval` and `sprintf("%.3f")` are not modelled;
  - the non-zero legacy-penalty branch keeps the penalty value instead of formatting it with `number_format`.
- `intval` on `ordering`: the form's orderings are given as integers.
- Strings are sequences of bytes, one character per byte, so `strlen` is the sequence length. Multibyte text is not decoded.

**Weakened contracts**
- TestcaseTable.SavedIdsSound: requires every testcase to already carry the question's id, for the reason given for `SaveThenLoad`; a reused row whose testcase names another question leaves the question's ids.
- TestcaseTable.SavedIds: requires every testcase to already carry the question's id, for the same reason.
- TestcaseTable.SavedRowAt: requires the `j`-th testcase to carry the question's id. A surplus testcase is inserted stamped with the question's id (`questiontype.php:96-97`), so without this its row differs from it in `questionid`.
- TestcaseTable.SaveThenLoad: requires every testcase to already carry the question's id. A reused row takes the testcase's own `questionid` (`questiontype.php:92-93`), and only inserted rows are stamped with the question's id. Without this precondition a reused row can move to another question.
- QuestionType.CopyTestcasesFromForm: requires every indexed column to have an entry for each row. The source asserts this only for `expected`; a shorter column would give PHP undefined-index notices.
- QuestionType.CopyTestcasesFromForm: a missing `testcode` column is modelled as an empty one, which `empty()` treats the same way.
- QuestionType.CopyTestcasesFromForm: the private method is not called from any code shown. It is modelled on its own, with either `filter_crs`.
- Testcases.SortByOrdering: the sort is stable, which `usort` guarantees only from PHP 8.0; on older PHP the order of testcases with equal `ordering` is unspecified.
- EditForm.DataPreprocessing: the misspelt `hiderestifail` property that the code resets is not modelled, because nothing reads it.

## Findings

| source | as written | input that shows it | evidently intended | confidence | as-written member | corrected member |
|---|---|---|---|---|---|---|
| questiontype.php:243-245 | The trailing-newline loop compares the last character with the single-quoted `'\n'`. That is two characters (backslash, `n`), so the loop never runs and trailing line feeds stay. | `"a\n"` is returned unchanged. | Strip trailing line feeds, as the comment at `questiontype.php:239` says: `"a\n"` becomes `"a"`. | high; not executed | QuestionType.FilterCrsAsWritten, QuestionType.FilterCrsAsWrittenKeepsTrailingNewline | QuestionType.FilterCrs, QuestionType.FilterCrsSpec |
| edit_codeanalyzer_form.php:106-121 | The flattening resets five of the nine arrays before appending:<br>• `hiderestifail` is misspelt<br>• `testtype`, `stdin` and `mark` are not reset<br>Arrays that already hold entries misalign. | A `stdin` array holding one entry, plus one testcase: `testcode` has 1 entry and `stdin` has 2. | Reset every array, so that row `i` of each array is testcase `i`. | low; not executed | EditForm.FlattenAsWritten, EditForm.FlattenAsWrittenMisaligns, EditForm.DataPreprocessingAsWrittenNotIdempotent | EditForm.FlattenTestcases, EditForm.FlattenRoundTrip, EditForm.DataPreprocessing, EditForm.DataPreprocessingIdempotent |
