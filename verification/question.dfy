/**
 * The runtime question definition: validating a student's response,
 * deciding whether two responses are the same, and summarising a
 * response.  A response is the key/value array the question engine
 * hands in; the language-pack messages are abstract tags.
 */
module Question {
  import opened Php
  import Constants

  type Response = map<string, string>

  const AnswerKey: string := "answer"
  const LanguageKey: string := "language"

  /**
   * The messages validation can produce.  `NoError` stands for the empty
   * string that means "valid"; the others stand for the non-empty language
   * strings `answerrequired` and `answertooshort` (with its length
   * argument) of this plugin, and `unknownerror`, which is looked up in the
   * `qtype_coderunner` language pack; where that pack is absent Moodle
   * shows the non-empty placeholder `[[unknownerror]]`.
   */
  datatype Message = NoError | AnswerRequired | AnswerTooShort(minLength: nat) | UnknownError

  /**
   * Validation against an arbitrary minimum length.  The length test is
   * on the raw answer (no trimming), so whitespace counts.
   */
  function ValidateWithMinLength(response: Response, minLength: nat): (m: Message)
    ensures m != UnknownError
    ensures m == AnswerRequired <==> AnswerKey !in response || response[AnswerKey] == []
    ensures m == AnswerTooShort(minLength) <==>
              AnswerKey in response && 0 < |response[AnswerKey]| < minLength
    ensures m == NoError <==> AnswerKey in response && |response[AnswerKey]| >= minLength && response[AnswerKey] != []
  {
    if AnswerKey !in response || |response[AnswerKey]| == 0 then AnswerRequired
    else if |response[AnswerKey]| < minLength then AnswerTooShort(minLength)
    else NoError
  }

  /**
   * `validate_response`: a response is valid exactly when it has a
   * non-empty answer; every invalid response is told that an answer is
   * required.  The "too short" message is never produced, because the
   * minimum length is one.
   */
  function ValidateResponse(response: Response): (m: Message)
    ensures m == NoError <==> AnswerKey in response && response[AnswerKey] != []
    ensures m != NoError ==> m == AnswerRequired
    ensures !m.AnswerTooShort?
  {
    ValidateWithMinLength(response, Constants.FUNC_MIN_LENGTH)
  }

  /** `is_gradable_response`: the response has a non-empty answer. */
  function IsGradableResponse(response: Response): (b: bool)
    ensures b <==> SummariseResponse(response).Some? && SummariseResponse(response).value != []
  {
    ValidateResponse(response) == NoError
  }

  /** `is_complete_response` delegates to `is_gradable_response`. */
  function IsCompleteResponse(response: Response): (b: bool)
    ensures b <==> AnswerKey in response && |response[AnswerKey]| >= Constants.FUNC_MIN_LENGTH
  {
    IsGradableResponse(response)
  }

  /** The "too short" branch is reachable for any minimum length above one ... */
  lemma TooShortReachableAboveOne(minLength: nat)
    requires minLength > 1
    ensures exists response :: ValidateWithMinLength(response, minLength) == AnswerTooShort(minLength)
  {
    var response := map[AnswerKey := "x"];
    assert ValidateWithMinLength(response, minLength) == AnswerTooShort(minLength);
  }

  /** ... but not for the configured minimum of one. */
  lemma TooShortUnreachable(response: Response)
    ensures ValidateWithMinLength(response, Constants.FUNC_MIN_LENGTH) != AnswerTooShort(Constants.FUNC_MIN_LENGTH)
  {
  }

  /** An answer made only of whitespace is valid: nothing is trimmed. */
  lemma WhitespaceAnswerIsValid(response: Response)
    requires AnswerKey in response && response[AnswerKey] != []
    requires AllTrimSpace(response[AnswerKey])
    ensures IsGradableResponse(response)
  {
  }

  /** The value stored under `key`, with a missing key read as the empty string. */
  function ValueOrBlank(response: Response, key: string): (v: string)
    ensures key !in response ==> v == ""
  {
    if key in response then response[key] else ""
  }

  /**
   * `is_same_response`: the responses agree on `answer` and on `language`,
   * each with a missing key read as blank.
   */
  function IsSameResponse(prev: Response, next: Response): (same: bool)
    ensures same ==> ValidateResponse(prev) == ValidateResponse(next)
    ensures same ==> (IsGradableResponse(prev) <==> IsGradableResponse(next))
    ensures ValueOrBlank(prev, AnswerKey) != ValueOrBlank(next, AnswerKey) ==> !same
    ensures ValueOrBlank(prev, LanguageKey) != ValueOrBlank(next, LanguageKey) ==> !same
  {
    ValueOrBlank(prev, AnswerKey) == ValueOrBlank(next, AnswerKey)
    && ValueOrBlank(prev, LanguageKey) == ValueOrBlank(next, LanguageKey)
  }

  /** Sameness is an equivalence relation. */
  lemma SameResponseIsEquivalence(a: Response, b: Response, c: Response)
    ensures IsSameResponse(a, a)
    ensures IsSameResponse(a, b) ==> IsSameResponse(b, a)
    ensures IsSameResponse(a, b) && IsSameResponse(b, c) ==> IsSameResponse(a, c)
  {
  }

  /** Keys other than `answer` and `language` play no part. */
  lemma SameResponseIgnoresOtherKeys(a: Response, b: Response, key: string, value: string)
    requires key != AnswerKey && key != LanguageKey
    ensures IsSameResponse(a[key := value], b) == IsSameResponse(a, b)
    ensures IsSameResponse(a - {key}, b) == IsSameResponse(a, b)
  {
  }

  /**
   * A changed submission is never taken for the unchanged one: giving
   * `answer` or `language` a different value makes the responses differ,
   * so the question engine regrades.
   */
  lemma ChangedSubmissionIsNotSame(a: Response, key: string, x: string, y: string)
    requires key == AnswerKey || key == LanguageKey
    requires x != y
    ensures !IsSameResponse(a[key := x], a[key := y])
  {
    assert ValueOrBlank(a[key := x], key) == x;
    assert ValueOrBlank(a[key := y], key) == y;
  }

  /** A missing `answer` or `language` key is the same as an empty value. */
  lemma SameResponseMissingIsBlank(a: Response, key: string)
    requires key == AnswerKey || key == LanguageKey
    requires key !in a
    ensures IsSameResponse(a, a[key := ""])
  {
  }

  /** `summarise_response`: the answer when there is one, else null. */
  function SummariseResponse(response: Response): (summary: Option<string>)
    ensures summary.Some? <==> AnswerKey in response
    ensures summary.Some? ==> summary.value == response[AnswerKey]
  {
    if AnswerKey in response then Some(response[AnswerKey]) else None
  }

  /** A response without a summary, or with an empty one, is the one told to supply an answer. */
  lemma SummaryAgreesWithValidation(response: Response)
    ensures ValidateResponse(response) == AnswerRequired
            <==> SummariseResponse(response) == None || SummariseResponse(response) == Some("")
  {
  }

  /**
   * `get_correct_response`: the question's `answer` property when it is
   * set, else null.  A question is a property table.
   */
  function GetCorrectResponse(question: Object<string>): (answer: Option<string>)
    ensures answer.Some? <==> IsSet(question, AnswerKey)
    ensures answer.Some? ==> question[AnswerKey] == answer
  {
    if AnswerKey in question then question[AnswerKey] else None
  }

  /**
   * `get_validation_error`: the validation message when there is one,
   * otherwise the "unknown error" message, so the result is never the
   * empty string; it is "unknown error" exactly for gradable responses.
   */
  function GetValidationError(response: Response): (m: Message)
    ensures m != NoError
    ensures m == UnknownError <==> IsGradableResponse(response)
    ensures !IsGradableResponse(response) ==> m == ValidateResponse(response)
  {
    var error := ValidateResponse(response);
    if error != NoError then error else UnknownError
  }
}
