/**
 * Fill-in-the-blank answers: the input fields, the answers read from them
 * (quiz-functions.js `getFillInTheBlankAnswers`), the case-insensitive check
 * of quiz-system.js and its feedback message (`createFillInFeedbackMessage`),
 * and the per-blank effect of a classifier verdict used by
 * exercise-renderer.js.
 */
module FillIn {
  import opened Text

  /**
   * One `<input class="fill-blank-input">`: what the player typed, its
   * `data-answer` and `data-index` attributes, whether it is disabled, which
   * of the classes "correct"/"incorrect" it carries (classList.add only ever
   * adds), the expected answers revealed next to it (one span per reveal),
   * and its `data-feedback`/`data-hint` attributes ("" when unset).
   */
  datatype BlankInput = BlankInput(
    value: string,
    answer: string,
    partIndex: nat,
    disabled: bool,
    markedCorrect: bool,
    markedIncorrect: bool,
    revealed: seq<string>,
    feedback: string,
    hint: string)

  /** `{ userAnswer, correctAnswer }` as read from an input. */
  datatype Answer = Answer(userAnswer: string, correctAnswer: string)

  /** The value is trimmed when it is read. */
  function AnswerOf(b: BlankInput): Answer {
    Answer(Trim(b.value), b.answer)
  }

  function Answers(inputs: seq<BlankInput>): (r: seq<Answer>)
    ensures |r| == |inputs| && forall k :: 0 <= k < |inputs| ==> r[k] == AnswerOf(inputs[k])
  {
    seq(|inputs|, k requires 0 <= k < |inputs| => AnswerOf(inputs[k]))
  }

  /** The answer equals the expected one after lower-casing both. */
  predicate BlankMatches(a: Answer) {
    EqualsIgnoreCase(a.userAnswer, a.correctAnswer)
  }

  /**
   * `answers.filter(...)`: the answers that do not match, in order and with
   * their multiplicity (see `WrongAnswersOfOne` and `WrongAnswersConcat`).
   */
  function WrongAnswers(answers: seq<Answer>): (r: seq<Answer>)
    ensures |r| <= |answers|
    ensures forall a :: a in r <==> a in answers && !BlankMatches(a)
    ensures r == [] <==> AllMatch(answers)
  {
    if answers == [] then []
    else
      var rest := WrongAnswers(answers[1..]);
      assert answers == [answers[0]] + answers[1..];
      if BlankMatches(answers[0]) then rest else [answers[0]] + rest
  }

  /** One answer is kept exactly when it does not match. */
  lemma WrongAnswersOfOne(a: Answer)
    ensures WrongAnswers([a]) == if BlankMatches(a) then [] else [a]
  {
    assert [a][1..] == [];
  }

  /** Filtering distributes over concatenation, so the kept answers stay in their order. */
  lemma {:induction false} WrongAnswersConcat(xs: seq<Answer>, ys: seq<Answer>)
    ensures WrongAnswers(xs + ys) == WrongAnswers(xs) + WrongAnswers(ys)
  {
    if xs != [] {
      assert (xs + ys)[1..] == xs[1..] + ys;
      WrongAnswersConcat(xs[1..], ys);
    } else {
      assert xs + ys == ys;
    }
  }

  function Quoted(s: string): string {
    "\"" + s + "\""
  }

  function QuotedAnswers(wrong: seq<Answer>): (r: seq<string>)
    ensures |r| == |wrong| && forall k :: 0 <= k < |wrong| ==> r[k] == Quoted(wrong[k].correctAnswer)
  {
    seq(|wrong|, k requires 0 <= k < |wrong| => Quoted(wrong[k].correctAnswer))
  }

  const SingularPrefix: string := "La respuesta correcta es: "
  const PluralPrefix: string := "Las respuestas correctas son: "
  const HintLabel: string := "\nPista: "

  /**
   * `createFillInFeedbackMessage(answers, questionData)`; `hint` is "" when
   * the question has none. The message is the bare hint exactly when every
   * blank matches (see `FeedbackShape` for the other case).
   */
  function FeedbackMessage(answers: seq<Answer>, hint: string): (r: string)
    ensures r == hint <==> AllMatch(answers)
  {
    var wrong := WrongAnswers(answers);
    if |wrong| == 0 then hint
    else
      var message := (if |wrong| == 1 then SingularPrefix else PluralPrefix) + Join(QuotedAnswers(wrong), ", ");
      if hint != "" then message + HintLabel + hint else message
  }

  /**
   * With some blank wrong, the message opens with the singular prefix when
   * exactly one is wrong and with the plural one otherwise, lists the
   * quoted expected answers of the wrong blanks, and has the hint line
   * appended exactly when there is a hint.
   */
  lemma FeedbackShape(answers: seq<Answer>, hint: string)
    requires exists k :: 0 <= k < |answers| && !BlankMatches(answers[k])
    ensures var m, n := FeedbackMessage(answers, hint), |WrongAnswers(answers)|;
      && 1 <= n
      && (n == 1 ==> |SingularPrefix| <= |m| && m[..|SingularPrefix|] == SingularPrefix)
      && (n > 1 ==> |PluralPrefix| <= |m| && m[..|PluralPrefix|] == PluralPrefix)
      && (hint != "" ==> |HintLabel + hint| <= |m| && m[|m| - |HintLabel + hint|..] == HintLabel + hint)
      && (hint == "" ==> m == (if n == 1 then SingularPrefix else PluralPrefix) + Join(QuotedAnswers(WrongAnswers(answers)), ", "))
  {
    var k :| 0 <= k < |answers| && !BlankMatches(answers[k]);
    var wrong := WrongAnswers(answers);
    assert answers[k] in wrong;
    var prefix := if |wrong| == 1 then SingularPrefix else PluralPrefix;
    var body := prefix + Join(QuotedAnswers(wrong), ", ");
    PrefixOfConcat(prefix, Join(QuotedAnswers(wrong), ", "));
    if hint != "" {
      PrefixOfConcat(body, HintLabel + hint);
      PrefixOfPrefix(prefix, body, body + (HintLabel + hint));
      assert body + HintLabel + hint == body + (HintLabel + hint);
      SuffixOfConcat(body, HintLabel + hint);
    }
  }

  lemma PrefixOfConcat(a: string, b: string)
    ensures (a + b)[..|a|] == a
  {
  }

  lemma PrefixOfPrefix(a: string, b: string, c: string)
    requires |a| <= |b| <= |c| && b[..|a|] == a && c[..|b|] == b
    ensures c[..|a|] == a
  {
    assert c[..|a|] == c[..|b|][..|a|];
  }

  lemma SuffixOfConcat(a: string, b: string)
    ensures (a + b)[|a + b| - |b|..] == b
  {
  }

  /** Every wrong blank's expected answer appears, in quotes, in the message. */
  lemma FeedbackNamesEachWrongBlank(answers: seq<Answer>, hint: string, k: nat)
    requires k < |answers| && !BlankMatches(answers[k])
    ensures Contains(FeedbackMessage(answers, hint), Quoted(answers[k].correctAnswer))
  {
    var wrong := WrongAnswers(answers);
    assert answers[k] in wrong;
    var w :| 0 <= w < |wrong| && wrong[w] == answers[k];
    var quoted := QuotedAnswers(wrong);
    var list := Join(quoted, ", ");
    JoinContainsEachPart(quoted, ", ", w);
    var i := IndexOf(list, quoted[w]).value;
    var prefix := if |wrong| == 1 then SingularPrefix else PluralPrefix;
    var suffix := if hint != "" then HintLabel + hint else "";
    OccursInside(prefix, list, suffix, quoted[w], i);
    FeedbackMessageParts(answers, hint);
    ContainsWitness(FeedbackMessage(answers, hint), quoted[w], |prefix| + i);
  }

  /** With some blank wrong, the message is the prefix, the quoted list and the hint line, if any. */
  lemma FeedbackMessageParts(answers: seq<Answer>, hint: string)
    requires WrongAnswers(answers) != []
    ensures var wrong := WrongAnswers(answers);
      FeedbackMessage(answers, hint) ==
        (if |wrong| == 1 then SingularPrefix else PluralPrefix) + Join(QuotedAnswers(wrong), ", ")
        + (if hint != "" then HintLabel + hint else "")
  {
    var wrong := WrongAnswers(answers);
    var message := (if |wrong| == 1 then SingularPrefix else PluralPrefix) + Join(QuotedAnswers(wrong), ", ");
    if hint != "" {
      assert message + HintLabel + hint == message + (HintLabel + hint);
    } else {
      assert message + "" == message;
    }
  }

  predicate AllMatch(answers: seq<Answer>) {
    forall k :: 0 <= k < |answers| ==> BlankMatches(answers[k])
  }

  /**
   * An input as the check leaves it: the class "correct" added when it
   * matches; otherwise the class "incorrect" added and its expected answer
   * revealed; disabled either way, and nothing else changed.
   */
  function Marked(b: BlankInput, matches: bool): (r: BlankInput)
    ensures r.disabled
    ensures r.markedCorrect <==> b.markedCorrect || matches
    ensures r.markedIncorrect <==> b.markedIncorrect || !matches
    ensures r.revealed == if matches then b.revealed else b.revealed + [b.answer]
    ensures r.value == b.value && r.answer == b.answer && r.partIndex == b.partIndex
    ensures r.feedback == b.feedback && r.hint == b.hint
  {
    if matches then b.(markedCorrect := true, disabled := true)
    else b.(markedIncorrect := true, revealed := b.revealed + [b.answer], disabled := true)
  }

  /**
   * The quiz-system.js check of one input: on an input not yet marked, the
   * class "correct" is added exactly when the trimmed value equals the
   * expected answer ignoring case, and the answer is revealed otherwise.
   */
  function Checked(b: BlankInput): (r: BlankInput)
    ensures r.disabled && r.value == b.value && r.answer == b.answer
    ensures !b.markedCorrect ==> (r.markedCorrect <==> EqualsIgnoreCase(Trim(b.value), b.answer))
    ensures !b.markedIncorrect ==> (r.markedIncorrect <==> !EqualsIgnoreCase(Trim(b.value), b.answer))
    ensures !EqualsIgnoreCase(Trim(b.value), b.answer) ==> r.revealed == b.revealed + [b.answer]
  {
    Marked(b, BlankMatches(AnswerOf(b)))
  }

  /**
   * The check callback of quiz-system.js `renderFillInTheBlankExercise`: the
   * exercise is correct iff every trimmed answer equals its expected answer
   * ignoring case; every input ends up disabled.
   */
  method CheckAllBlanks(inputs: array<BlankInput>, hint: string) returns (isCorrect: bool, message: string)
    modifies inputs
    ensures isCorrect <==> AllMatch(Answers(old(inputs[..])))
    ensures forall k :: 0 <= k < inputs.Length ==> inputs[k] == Checked(old(inputs[k]))
    ensures message == FeedbackMessage(Answers(old(inputs[..])), hint)
  {
    var answers := Answers(inputs[..]);
    var matches := seq(|answers|, i requires 0 <= i < |answers| => BlankMatches(answers[i]));
    isCorrect := MarkBlanks(inputs, matches);
    message := FeedbackMessage(answers, hint);
  }

  /** The `forEach` of the check: each input marked by its own result, and whether all of them matched. */
  method MarkBlanks(inputs: array<BlankInput>, matches: seq<bool>) returns (allMatch: bool)
    requires |matches| == inputs.Length
    modifies inputs
    ensures allMatch <==> forall m :: 0 <= m < |matches| ==> matches[m]
    ensures forall m :: 0 <= m < inputs.Length ==> inputs[m] == Marked(old(inputs[m]), matches[m])
  {
    allMatch := true;
    for k := 0 to inputs.Length
      invariant forall m :: 0 <= m < k ==> inputs[m] == Marked(old(inputs[m]), matches[m])
      invariant forall m :: k <= m < inputs.Length ==> inputs[m] == old(inputs[m])
      invariant allMatch <==> forall m :: 0 <= m < k ==> matches[m]
    {
      if !matches[k] {
        allMatch := false;
      }
      inputs[k] := Marked(inputs[k], matches[k]);
    }
  }

  /** `analyzeUserAnswer`'s result record; `hint` is "" when absent. */
  datatype Verdict = Verdict(isCorrect: bool, confidence: int, allowRetry: bool, feedback: string, hint: string)

  /** The classifier, whose body is not part of this model: any function of the answer and the accepted answers. */
  type Classifier = (string, seq<string>) -> Verdict

  /** The accepted answers: the expected answer first, then the part's alternatives. */
  function AcceptedAnswers(a: Answer, alternatives: seq<string>): (r: seq<string>)
    ensures |r| == |alternatives| + 1 && r[0] == a.correctAnswer && r[1..] == alternatives
  {
    [a.correctAnswer] + alternatives
  }

  /**
   * `analyzeUserAnswer(userAnswer, allValidAnswers)` for one answer of part
   * `partIndex`: the classifier is asked about the trimmed answer, with the
   * expected answer followed by that part's alternatives.
   */
  function VerdictOf(a: Answer, partIndex: nat, alternatives: seq<seq<string>>, classify: Classifier): (r: Verdict)
    requires partIndex < |alternatives|
    ensures var accepted := AcceptedAnswers(a, alternatives[partIndex]);
      r == classify(a.userAnswer, accepted) && accepted[0] == a.correctAnswer && accepted[1..] == alternatives[partIndex]
  {
    classify(a.userAnswer, AcceptedAnswers(a, alternatives[partIndex]))
  }

  /** exercise-renderer.js, one input under a verdict: a wrong non-retryable blank is revealed and disabled, a wrong retryable one keeps its hint and stays editable. */
  function Analyzed(b: BlankInput, v: Verdict): (r: BlankInput)
    ensures r.value == b.value && r.answer == b.answer && r.partIndex == b.partIndex
    ensures v.isCorrect ==> r.markedCorrect && r.disabled == b.disabled && r.revealed == b.revealed
    ensures !v.isCorrect ==> r.markedIncorrect
    ensures !v.isCorrect && v.allowRetry ==> r.disabled == b.disabled && r.revealed == b.revealed
    ensures !v.isCorrect && !v.allowRetry ==> r.disabled && r.revealed == b.revealed + [b.answer]
  {
    if v.isCorrect then
      b.(markedCorrect := true, feedback := if v.confidence == 100 then "¡Perfecto!" else b.feedback)
    else if v.allowRetry then
      b.(markedIncorrect := true, feedback := v.feedback, hint := v.hint)
    else
      b.(markedIncorrect := true, revealed := b.revealed + [b.answer], disabled := true)
  }
}
