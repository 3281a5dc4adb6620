/**
 * The unified exercise renderer (exercise-renderer.js): the table of
 * exercise types, the extraction of `isCorrect` and of the score increment
 * in `unifiedCallback`, the retry-aware fill-in check and the
 * reading-comprehension aggregation. The context object the renderer
 * mutates (`context.totalPairs`, `context.shouldShowNext`, calls to
 * `context.updateScore`, the next button) is the class `ExerciseContext`.
 */
module Renderer {
  import opened Wrappers
  import opened Text
  import opened Results
  import opened FillIn

  /** The keys of `EXERCISE_CONFIG`. */
  datatype ExerciseKind =
    | MultipleChoice
    | FillInTheBlanks
    | MatchingPairs
    | ReadingComprehension
    | TrueFalse
    | ShortAnswer
    | Ordering

  function TypeName(k: ExerciseKind): string {
    match k
    case MultipleChoice => "multiple_choice"
    case FillInTheBlanks => "fill_in_the_blanks"
    case MatchingPairs => "matching"
    case ReadingComprehension => "reading_comprehension"
    case TrueFalse => "true_false"
    case ShortAnswer => "short_answer"
    case Ordering => "ordering"
  }

  /** `EXERCISE_CONFIG[exerciseType]`, `None` for a type the table does not list. */
  function KindOf(name: string): (r: Option<ExerciseKind>)
    ensures r.Some? ==> TypeName(r.value) == name
    ensures r.None? ==> forall k: ExerciseKind :: TypeName(k) != name
  {
    if name == "multiple_choice" then Some(MultipleChoice)
    else if name == "fill_in_the_blanks" then Some(FillInTheBlanks)
    else if name == "matching" then Some(MatchingPairs)
    else if name == "reading_comprehension" then Some(ReadingComprehension)
    else if name == "true_false" then Some(TrueFalse)
    else if name == "short_answer" then Some(ShortAnswer)
    else if name == "ordering" then Some(Ordering)
    else None
  }

  /** Every listed type is found under its own key. */
  lemma KindOfTypeName(k: ExerciseKind)
    ensures KindOf(TypeName(k)) == Some(k)
  {
  }

  /** One entry of `EXERCISE_CONFIG`; `countsPairs` is the presence of `totalPairsProperty`. */
  datatype ExerciseConfig = ExerciseConfig(renderFunction: string, requiresManualCheck: bool, countsPairs: bool)

  function Config(k: ExerciseKind): ExerciseConfig {
    match k
    case MultipleChoice => ExerciseConfig("renderMultipleChoice", false, false)
    case FillInTheBlanks => ExerciseConfig("renderFillInTheBlanks", true, false)
    case MatchingPairs => ExerciseConfig("renderMatching", false, true)
    case ReadingComprehension => ExerciseConfig("renderReadingComprehension", false, false)
    case TrueFalse => ExerciseConfig("renderTrueFalse", false, false)
    case ShortAnswer => ExerciseConfig("renderShortAnswerStandalone", true, false)
    case Ordering => ExerciseConfig("renderOrdering", true, false)
  }

  /** Exactly the three typed-answer exercises wait for a manual check; only matching counts pairs. */
  lemma ConfigFlags(k: ExerciseKind)
    ensures Config(k).requiresManualCheck <==> k == FillInTheBlanks || k == ShortAnswer || k == Ordering
    ensures Config(k).countsPairs <==> k == MatchingPairs
  {
  }

  /**
   * The value handed to the reading-comprehension callback. `Plain` is
   * anything that is not an object, with its truthiness. `Record` is an
   * object: whether `isComplete` is truthy, `correctAnswers` and
   * `totalQuestions` when present, whether `isCorrect` is exactly `true`,
   * and its `result` property (`Plain(false)` when absent or falsy).
   */
  datatype RcResult =
    | Plain(truthy: bool)
    | Record(isComplete: bool, correctAnswers: Option<nat>, totalQuestions: Option<nat>,
             isCorrectTrue: bool, inner: RcResult)

  predicate Truthy(r: RcResult) {
    r.Record? || r.truthy
  }

  /** `x || 0` on an optional count. */
  function OrZero(o: Option<nat>): nat {
    o.GetOr(0)
  }

  /** `x || 1` on an optional count. */
  function OrOne(o: Option<nat>): (r: nat)
    ensures r > 0
  {
    if o.Some? && o.value > 0 then o.value else 1
  }

  /** A record reporting a finished multi-question run. */
  predicate IsCompleteRecord(r: RcResult) {
    r.Record? && r.isComplete
  }

  /**
   * `(correctAnswers, totalQuestions)` as `handleReadingComprehensionResult`
   * reads them: from a complete record, else from a complete nested record,
   * else one question, answered correctly iff the value is truthy.
   */
  function RcCounts(r: RcResult): (counts: (nat, nat))
    ensures IsCompleteRecord(r) ==> counts == (OrZero(r.correctAnswers), OrZero(r.totalQuestions))
    ensures r.Record? && !r.isComplete && IsCompleteRecord(r.inner)
      ==> counts == (OrZero(r.inner.correctAnswers), OrZero(r.inner.totalQuestions))
    ensures !IsCompleteRecord(r) && !(r.Record? && IsCompleteRecord(r.inner))
      ==> counts == (if Truthy(r) then 1 else 0, 1)
  {
    match r
    case Plain(t) => (if t then 1 else 0, 1)
    case Record(complete, ca, tq, _, inner) =>
      if complete then (OrZero(ca), OrZero(tq))
      else if Truthy(inner) then
        if IsCompleteRecord(inner) then (OrZero(inner.correctAnswers), OrZero(inner.totalQuestions))
        else (1, 1)
      else (1, 1)
  }

  /**
   * The all-correct notion of `handleReadingComprehensionResult`: every
   * question of a complete record right, and a single answer right iff the
   * value is truthy.
   */
  predicate RcAllCorrect(r: RcResult)
    ensures IsCompleteRecord(r) ==> (RcAllCorrect(r) <==> OrZero(r.correctAnswers) == OrZero(r.totalQuestions))
    ensures !IsCompleteRecord(r) && !(r.Record? && IsCompleteRecord(r.inner)) ==> (RcAllCorrect(r) <==> Truthy(r))
  {
    RcCounts(r).0 == RcCounts(r).1
  }

  /** Its percentage: `Math.round(100 * c / t)`, or 0 when there are no questions. */
  function RcPercent(c: nat, t: nat): (p: nat)
    ensures t == 0 ==> p == 0
    ensures 0 < t ==> p == RoundPercent(c, t)
    ensures c <= t ==> p <= 100
    ensures 0 < t && c == t ==> p == 100
  {
    if t > 0 then
      if c == t then RoundPercentFull(t); RoundPercent(c, t)
      else if c < t then RoundPercentAtMost100(c, t); RoundPercent(c, t)
      else RoundPercent(c, t)
    else 0
  }

  /** "Respuestas correctas: c de t (p%)". */
  function RcMessage(r: RcResult): (m: string)
    ensures |m| > 28 && m[..22] == "Respuestas correctas: " && m[|m| - 2..] == "%)"
    ensures RcAllCorrect(r) && 0 < RcCounts(r).1 ==> m[|m| - 6..] == "(100%)"
    ensures RcCounts(r).1 == 0 ==> m[|m| - 4..] == "(0%)"
  {
    var (c, t) := RcCounts(r);
    "Respuestas correctas: " + NatToString(c) + " de " + NatToString(t) + " (" + NatToString(RcPercent(c, t)) + "%)"
  }

  /**
   * The pass notion of `unifiedCallback`: with `correctAnswers` present,
   * at least half right against `totalQuestions || 1`; otherwise the
   * record's `isCorrect` must be exactly `true`, and a plain value never passes.
   */
  function RcIsCorrect(r: RcResult): (ok: bool)
    ensures r.Plain? ==> !ok
    ensures r.Record? && r.correctAnswers.Some? ==> (ok <==> 2 * r.correctAnswers.value >= OrOne(r.totalQuestions))
    ensures r.Record? && r.correctAnswers.None? ==> (ok <==> r.isCorrectTrue)
  {
    match r
    case Plain(_) => false
    case Record(_, ca, tq, isCorrectTrue, _) =>
      if ca.Some? then ca.value * 2 >= OrOne(tq) else isCorrectTrue
  }

  /** A complete record with questions whose counts are all right also passes the half-right test. */
  lemma AllCorrectPassesHalf(r: RcResult)
    requires IsCompleteRecord(r) && r.correctAnswers.Some? && r.totalQuestions.Some? && r.totalQuestions.value > 0
    requires RcAllCorrect(r)
    ensures RcIsCorrect(r)
  {
  }

  /**
   * The two notions differ both ways: one right answer of two passes but is
   * not all correct, and a complete record with no questions is all correct
   * but does not pass.
   */
  lemma CorrectnessNotionsDiffer()
    ensures var r := Record(true, Some(1), Some(2), false, Plain(false));
      RcIsCorrect(r) && !RcAllCorrect(r)
    ensures var e := Record(true, Some(0), Some(0), false, Plain(false));
      RcAllCorrect(e) && !RcIsCorrect(e)
  {
  }

  /**
   * A plain `true` is counted by the aggregation as one right answer out of
   * one (one `updateScore` call, "1 de 1 (100%)"), while the callback reports
   * it as not correct with no score increment.
   */
  lemma PlainTrueIsCountedButNotCorrect()
    ensures RcCounts(Plain(true)) == (1, 1) && RcAllCorrect(Plain(true))
    ensures !RcIsCorrect(Plain(true)) && ReadingScoreIncrement(Plain(true)) == 0
  {
  }

  /** The reading increment: a positive `correctAnswers`, else one point for a pass. */
  function ReadingScoreIncrement(r: RcResult): (n: nat)
    ensures r.Record? && r.correctAnswers.Some? && r.correctAnswers.value > 0 ==> n == r.correctAnswers.value
    ensures !(r.Record? && r.correctAnswers.Some? && r.correctAnswers.value > 0) ==> n == (if RcIsCorrect(r) then 1 else 0)
  {
    if r.Record? && r.correctAnswers.Some? && r.correctAnswers.value > 0 then r.correctAnswers.value
    else if RcIsCorrect(r) then 1
    else 0
  }

  /** For a complete record the increment reported equals the number of `updateScore` calls. */
  lemma CompleteRecordIncrementMatchesCounts(r: RcResult)
    requires IsCompleteRecord(r) && r.correctAnswers.Some? && r.correctAnswers.value > 0
    ensures ReadingScoreIncrement(r) == RcCounts(r).0
  {
  }

  /** The first argument of a single-answer callback: absent, a boolean, or another value with its truthiness. */
  datatype Arg = Absent | BoolArg(value: bool) | OtherArg(truthy: bool)

  /** What a callback received, per exercise kind; the fill-in check's points stand for its answers. */
  datatype Submission =
    | SingleAnswer(arg: Arg)
    | MatchingOutcome(isComplete: bool, matchedCorrectly: bool)
    | FillInPoints(points: nat)
    | ReadingOutcome(result: RcResult)

  predicate Fits(k: ExerciseKind, s: Submission) {
    match k
    case MatchingPairs => s.MatchingOutcome?
    case FillInTheBlanks => s.FillInPoints?
    case ReadingComprehension => s.ReadingOutcome?
    case _ => s.SingleAnswer?
  }

  /** The object passed to `onComplete`. */
  datatype Completion = Completion(kind: ExerciseKind, scoreIncrement: nat, isCorrect: bool)

  /** `isCorrect` and `scoreIncrement` as `unifiedCallback` derives them. */
  function CallbackCompletion(k: ExerciseKind, s: Submission): (c: Completion)
    requires Fits(k, s)
    ensures c.kind == k
    ensures k != ReadingComprehension ==> c.scoreIncrement == (if c.isCorrect then 1 else 0)
    ensures k == MatchingPairs ==> (c.isCorrect <==> s.isComplete && s.matchedCorrectly)
    ensures k == FillInTheBlanks ==> (c.isCorrect <==> s.points > 0)
    ensures s.SingleAnswer? && s.arg.BoolArg? ==> c.isCorrect == s.arg.value
    ensures s.SingleAnswer? && s.arg.Absent? ==> !c.isCorrect
    ensures k == ReadingComprehension ==>
      (c.isCorrect == RcIsCorrect(s.result) && c.scoreIncrement == ReadingScoreIncrement(s.result))
  {
    match s
    case ReadingOutcome(r) => Completion(k, ReadingScoreIncrement(r), RcIsCorrect(r))
    case MatchingOutcome(complete, matched) => var ok := complete && matched; Completion(k, if ok then 1 else 0, ok)
    case FillInPoints(p) => Completion(k, if p > 0 then 1 else 0, p > 0)
    case SingleAnswer(a) =>
      var ok := match a
        case Absent => false
        case BoolArg(b) => b
        case OtherArg(t) => t;
      Completion(k, if ok then 1 else 0, ok)
  }

  /** Outside reading comprehension one evaluation raises the score by at most one. */
  lemma CallbackIncrementAtMostOne(k: ExerciseKind, s: Submission)
    requires Fits(k, s) && k != ReadingComprehension
    ensures CallbackCompletion(k, s).scoreIncrement <= 1
  {
  }

  /** The answers list handed to the check belongs to the inputs, one answer per input, in order. */
  predicate AnswersFit(answers: seq<Answer>, inputs: seq<BlankInput>, alternatives: seq<seq<string>>) {
    && |answers| == |inputs|
    && forall k :: 0 <= k < |inputs| ==> inputs[k].partIndex < |alternatives| && answers[k].correctAnswer == inputs[k].answer
  }

  /** The classifier verdict for every answer, in order. */
  function Verdicts(answers: seq<Answer>, inputs: seq<BlankInput>, alternatives: seq<seq<string>>, classify: Classifier)
    : (vs: seq<Verdict>)
    requires AnswersFit(answers, inputs, alternatives)
    ensures |vs| == |answers|
    ensures forall k :: 0 <= k < |answers| ==> vs[k] == VerdictOf(answers[k], inputs[k].partIndex, alternatives, classify)
  {
    seq(|answers|, k requires 0 <= k < |answers| => VerdictOf(answers[k], inputs[k].partIndex, alternatives, classify))
  }

  predicate AllCorrect(vs: seq<Verdict>) {
    forall k :: 0 <= k < |vs| ==> vs[k].isCorrect
  }

  /** Some blank is wrong but may be tried again. */
  predicate SomeRetryable(vs: seq<Verdict>) {
    exists k :: 0 <= k < |vs| && !vs[k].isCorrect && vs[k].allowRetry
  }

  /** The points `handleFillInTheBlanksResult` returns for a multi-answer result. */
  function RetryPoints(vs: seq<Verdict>): (p: nat)
    ensures p <= 1
    ensures p == 1 <==> AllCorrect(vs)
    ensures SomeRetryable(vs) ==> p == 0
  {
    if SomeRetryable(vs) && !AllCorrect(vs) then 0
    else if AllCorrect(vs) then 1
    else 0
  }

  /**
   * With a classifier that accepts exactly the expected answer ignoring case
   * and never offers a retry, the retry-aware check gives the point exactly
   * when the plain check of quiz-system.js accepts the exercise.
   */
  lemma ExactClassifierAgreesWithPlainCheck(answers: seq<Answer>, inputs: seq<BlankInput>, alternatives: seq<seq<string>>,
                                            classify: Classifier)
    requires AnswersFit(answers, inputs, alternatives)
    requires forall u: string, accepted: seq<string> :: |accepted| > 0 ==>
      classify(u, accepted).isCorrect == EqualsIgnoreCase(u, accepted[0]) && !classify(u, accepted).allowRetry
    ensures var vs := Verdicts(answers, inputs, alternatives, classify);
      (RetryPoints(vs) == 1 <==> AllMatch(answers)) && !SomeRetryable(vs)
  {
    var vs := Verdicts(answers, inputs, alternatives, classify);
    forall k | 0 <= k < |answers|
      ensures vs[k].isCorrect == BlankMatches(answers[k]) && !vs[k].allowRetry
    {
      var accepted := AcceptedAnswers(answers[k], alternatives[inputs[k].partIndex]);
      assert vs[k] == classify(answers[k].userAnswer, accepted);
    }
  }

  /** The input as the complete path leaves it: analysed, then disabled. */
  function Finished(b: BlankInput, v: Verdict): (r: BlankInput)
    ensures r.disabled
    ensures r.revealed == Analyzed(b, v).revealed
  {
    Analyzed(b, v).(disabled := true)
  }

  /** The marking loop of `handleFillInTheBlanksResult`: each input by its verdict, with the two flags it keeps. */
  method AnalyzeBlanks(answers: seq<Answer>, inputs: array<BlankInput>, alternatives: seq<seq<string>>, classify: Classifier)
    returns (isCorrect: bool, hasRetryable: bool)
    requires AnswersFit(answers, inputs[..], alternatives)
    modifies inputs
    ensures var vs := Verdicts(answers, old(inputs[..]), alternatives, classify);
      && (forall k :: 0 <= k < inputs.Length ==> inputs[k] == Analyzed(old(inputs[k]), vs[k]))
      && (isCorrect <==> AllCorrect(vs))
      && (hasRetryable <==> SomeRetryable(vs))
  {
    ghost var vs := Verdicts(answers, inputs[..], alternatives, classify);
    isCorrect := true;
    hasRetryable := false;
    for k := 0 to inputs.Length
      invariant forall m :: 0 <= m < k ==> inputs[m] == Analyzed(old(inputs[m]), vs[m])
      invariant forall m :: k <= m < inputs.Length ==> inputs[m] == old(inputs[m])
      invariant isCorrect <==> forall m :: 0 <= m < k ==> vs[m].isCorrect
      invariant hasRetryable <==> exists m :: 0 <= m < k && !vs[m].isCorrect && vs[m].allowRetry
    {
      var input := inputs[k];
      var analysis := classify(answers[k].userAnswer, [answers[k].correctAnswer] + alternatives[input.partIndex]);
      if !analysis.isCorrect {
        isCorrect := false;
        if analysis.allowRetry {
          hasRetryable := true;
        }
      }
      inputs[k] := Analyzed(input, analysis);
    }
  }

  /** Disables every input of the answers list. */
  method DisableBlanks(inputs: array<BlankInput>)
    modifies inputs
    ensures forall k :: 0 <= k < inputs.Length ==> inputs[k] == old(inputs[k]).(disabled := true)
  {
    for k := 0 to inputs.Length
      invariant forall m :: 0 <= m < k ==> inputs[m] == old(inputs[m]).(disabled := true)
      invariant forall m :: k <= m < inputs.Length ==> inputs[m] == old(inputs[m])
    {
      inputs[k] := inputs[k].(disabled := true);
    }
  }

  /** A message shown in the exercise's feedback area. */
  datatype Feedback = General(isCorrect: bool, message: string) | RetryPrompt

  /**
   * What the fill-in check received: `{ answers, isMultiAnswer: true }` with
   * the list `getFillInTheBlankAnswers` read from the inputs, or a bare flag.
   */
  datatype FillInResult = MultiAnswer(answers: seq<Answer>) | SingleFlag(isCorrect: bool)

  /** The `context` object shared by the renderer and its callbacks. */
  class ExerciseContext {
    const hasUpdateScore: bool
    const hasNextButton: bool
    var updateScoreCalls: nat
    var nextShown: bool
    var nextEnabled: bool
    var checkHidden: bool
    var shouldShowNext: Option<bool>
    var totalPairs: Option<nat>
    var feedback: seq<Feedback>

    constructor(hasUpdateScore: bool, hasNextButton: bool)
      ensures this.hasUpdateScore == hasUpdateScore && this.hasNextButton == hasNextButton
      ensures updateScoreCalls == 0 && !nextShown && !nextEnabled && !checkHidden
      ensures shouldShowNext == None && totalPairs == None && feedback == []
    {
      this.hasUpdateScore := hasUpdateScore;
      this.hasNextButton := hasNextButton;
      updateScoreCalls := 0;
      nextShown := false;
      nextEnabled := false;
      checkHidden := false;
      shouldShowNext := None;
      totalPairs := None;
      feedback := [];
    }

    /** `context.updateScore()`. */
    method UpdateScore()
      requires hasUpdateScore
      modifies this
      ensures updateScoreCalls == old(updateScoreCalls) + 1
      ensures nextShown == old(nextShown) && nextEnabled == old(nextEnabled) && checkHidden == old(checkHidden)
      ensures shouldShowNext == old(shouldShowNext) && totalPairs == old(totalPairs) && feedback == old(feedback)
    {
      updateScoreCalls := updateScoreCalls + 1;
    }

    /** `showNextButtonAfterAnswer`: show and enable the next button when there is one. */
    method ShowNextButtonAfterAnswer()
      modifies this
      ensures nextShown == (old(nextShown) || hasNextButton) && nextEnabled == (old(nextEnabled) || hasNextButton)
      ensures updateScoreCalls == old(updateScoreCalls) && checkHidden == old(checkHidden)
      ensures shouldShowNext == old(shouldShowNext) && totalPairs == old(totalPairs) && feedback == old(feedback)
    {
      if hasNextButton {
        nextShown := true;
        nextEnabled := true;
      }
    }

    /**
     * `renderUnifiedExercise` up to the call of the render function: an
     * unknown type changes nothing; a manual-check type disables the next
     * button; matching records the number of pairs when the question has a
     * `pairs` array.
     */
    method RenderUnifiedExercise(exerciseType: string, pairCount: Option<nat>) returns (kind: Option<ExerciseKind>)
      modifies this
      ensures kind == KindOf(exerciseType)
      ensures kind.None? ==> nextEnabled == old(nextEnabled) && totalPairs == old(totalPairs)
      ensures kind.Some? && Config(kind.value).requiresManualCheck && hasNextButton ==> !nextEnabled
      ensures kind.Some? && !Config(kind.value).requiresManualCheck ==> nextEnabled == old(nextEnabled)
      ensures totalPairs == (if kind == Some(MatchingPairs) && pairCount.Some? then pairCount else old(totalPairs))
      ensures updateScoreCalls == old(updateScoreCalls) && nextShown == old(nextShown) && checkHidden == old(checkHidden)
      ensures shouldShowNext == old(shouldShowNext) && feedback == old(feedback)
    {
      kind := KindOf(exerciseType);
      if kind.None? {
        return;
      }
      var config := Config(kind.value);
      if config.requiresManualCheck && hasNextButton {
        nextEnabled := false;
      }
      if exerciseType == "matching" && config.countsPairs {
        if pairCount.Some? {
          totalPairs := pairCount;
        }
      }
    }

    /** `handleExerciseResult`: score a correct answer, show the verdict, show the next button and hide the check buttons. */
    method HandleExerciseResult(isCorrect: bool)
      modifies this
      ensures updateScoreCalls == old(updateScoreCalls) + (if isCorrect && hasUpdateScore then 1 else 0)
      ensures feedback == old(feedback) + [General(isCorrect, if isCorrect then "¡Correcto!" else "Incorrecto. Intenta de nuevo.")]
      ensures nextShown == (old(nextShown) || hasNextButton) && nextEnabled == (old(nextEnabled) || hasNextButton)
      ensures checkHidden == (old(checkHidden) || hasNextButton)
      ensures shouldShowNext == old(shouldShowNext) && totalPairs == old(totalPairs)
    {
      if isCorrect && hasUpdateScore {
        UpdateScore();
      }
      feedback := feedback + [General(isCorrect, if isCorrect then "¡Correcto!" else "Incorrecto. Intenta de nuevo.")];
      if hasNextButton {
        nextShown := true;
        nextEnabled := true;
        checkHidden := true;
      }
    }

    /**
     * `handleFillInTheBlanksResult`: mark each input by its verdict; while a
     * wrong blank may be retried, return 0 and keep the next button back;
     * otherwise disable every input, show the feedback message and return 1
     * iff every blank is correct.
     */
    method HandleFillInTheBlanksResult(result: FillInResult, inputs: array<BlankInput>, alternatives: seq<seq<string>>,
                                       classify: Classifier, hint: string) returns (points: nat)
      requires result.MultiAnswer? ==> AnswersFit(result.answers, inputs[..], alternatives)
      modifies this, inputs
      ensures result.SingleFlag? ==> points == (if result.isCorrect then 1 else 0)
      ensures result.SingleFlag? ==>
        (inputs[..] == old(inputs[..]) && shouldShowNext == old(shouldShowNext)
         && feedback == old(feedback) && checkHidden == old(checkHidden))
      ensures result.MultiAnswer? ==> var vs := Verdicts(result.answers, old(inputs[..]), alternatives, classify);
        && points == RetryPoints(vs)
        && shouldShowNext == Some(!SomeRetryable(vs))
        && checkHidden == (old(checkHidden) || !SomeRetryable(vs))
        && (SomeRetryable(vs) ==> feedback == old(feedback) + [RetryPrompt])
        && (SomeRetryable(vs) ==> forall k :: 0 <= k < inputs.Length ==> inputs[k] == Analyzed(old(inputs[k]), vs[k]))
        && (!SomeRetryable(vs) ==> forall k :: 0 <= k < inputs.Length ==> inputs[k] == Finished(old(inputs[k]), vs[k]))
        && (!SomeRetryable(vs) ==>
              feedback == old(feedback) + [General(AllCorrect(vs), FeedbackMessage(result.answers, hint))])
      ensures updateScoreCalls == old(updateScoreCalls) && nextShown == old(nextShown) && nextEnabled == old(nextEnabled)
      ensures totalPairs == old(totalPairs)
    {
      if result.SingleFlag? {
        points := if result.isCorrect then 1 else 0;
        return;
      }
      var answers := result.answers;
      var isCorrect, hasRetryable := AnalyzeBlanks(answers, inputs, alternatives, classify);
      if hasRetryable && !isCorrect {
        feedback := feedback + [RetryPrompt];
        shouldShowNext := Some(false);
        points := 0;
      } else {
        DisableBlanks(inputs);
        feedback := feedback + [General(isCorrect, FeedbackMessage(answers, hint))];
        checkHidden := true;
        shouldShowNext := Some(true);
        points := if isCorrect then 1 else 0;
      }
    }

    /**
     * `handleReadingComprehensionResult`: call `updateScore` once per right
     * answer, report "c de t (p%)" with the all-correct flag, show the next
     * button.
     */
    method HandleReadingComprehensionResult(r: RcResult)
      modifies this
      ensures updateScoreCalls == old(updateScoreCalls) + (if hasUpdateScore then RcCounts(r).0 else 0)
      ensures feedback == old(feedback) + [General(RcAllCorrect(r), RcMessage(r))]
      ensures nextShown == (old(nextShown) || hasNextButton) && nextEnabled == (old(nextEnabled) || hasNextButton)
      ensures checkHidden == old(checkHidden) && shouldShowNext == old(shouldShowNext) && totalPairs == old(totalPairs)
    {
      var (correctAnswers, totalQuestions) := RcCounts(r);
      if hasUpdateScore && correctAnswers > 0 {
        for i := 0 to correctAnswers
          invariant updateScoreCalls == old(updateScoreCalls) + i
          invariant feedback == old(feedback) && nextShown == old(nextShown) && nextEnabled == old(nextEnabled)
          invariant checkHidden == old(checkHidden) && shouldShowNext == old(shouldShowNext) && totalPairs == old(totalPairs)
        {
          UpdateScore();
        }
      }
      var isAllCorrect := correctAnswers == totalQuestions;
      var percentage := RcPercent(correctAnswers, totalQuestions);
      feedback := feedback + [General(isAllCorrect,
        "Respuestas correctas: " + NatToString(correctAnswers) + " de " + NatToString(totalQuestions)
        + " (" + NatToString(percentage) + "%)")];
      ShowNextButtonAfterAnswer();
    }

    /** `unifiedCallback` for multiple choice, true/false, short answer and ordering. */
    method SingleAnswerCallback(kind: ExerciseKind, arg: Arg) returns (c: Completion)
      requires Fits(kind, SingleAnswer(arg))
      modifies this
      ensures c == CallbackCompletion(kind, SingleAnswer(arg))
      ensures updateScoreCalls == old(updateScoreCalls) + (if hasUpdateScore then c.scoreIncrement else 0)
      ensures feedback == old(feedback) + [General(c.isCorrect, if c.isCorrect then "¡Correcto!" else "Incorrecto. Intenta de nuevo.")]
      ensures nextShown == (old(nextShown) || hasNextButton) && nextEnabled == (old(nextEnabled) || hasNextButton)
      ensures checkHidden == (old(checkHidden) || hasNextButton)
      ensures shouldShowNext == old(shouldShowNext) && totalPairs == old(totalPairs)
    {
      c := CallbackCompletion(kind, SingleAnswer(arg));
      HandleExerciseResult(c.isCorrect);
    }

    /** `unifiedCallback` for matching. */
    method MatchingCallback(isComplete: bool, matchedCorrectly: bool) returns (c: Completion)
      modifies this
      ensures c == CallbackCompletion(MatchingPairs, MatchingOutcome(isComplete, matchedCorrectly))
      ensures updateScoreCalls == old(updateScoreCalls) + (if hasUpdateScore then c.scoreIncrement else 0)
      ensures feedback == old(feedback) + [General(c.isCorrect, if c.isCorrect then "¡Correcto!" else "Incorrecto. Intenta de nuevo.")]
      ensures nextShown == (old(nextShown) || hasNextButton) && nextEnabled == (old(nextEnabled) || hasNextButton)
      ensures checkHidden == (old(checkHidden) || hasNextButton)
      ensures shouldShowNext == old(shouldShowNext) && totalPairs == old(totalPairs)
    {
      c := CallbackCompletion(MatchingPairs, MatchingOutcome(isComplete, matchedCorrectly));
      HandleExerciseResult(c.isCorrect);
    }

    /** `unifiedCallback` for fill-in-the-blanks: grade, score one point when earned, always show the next button. */
    method FillInCallback(answers: seq<Answer>, inputs: array<BlankInput>, alternatives: seq<seq<string>>,
                          classify: Classifier, hint: string) returns (c: Completion)
      requires AnswersFit(answers, inputs[..], alternatives)
      modifies this, inputs
      ensures var vs := Verdicts(answers, old(inputs[..]), alternatives, classify);
        && c == CallbackCompletion(FillInTheBlanks, FillInPoints(RetryPoints(vs)))
        && (c.isCorrect <==> AllCorrect(vs))
        && shouldShowNext == Some(!SomeRetryable(vs))
        && checkHidden == (old(checkHidden) || !SomeRetryable(vs))
        && (SomeRetryable(vs) ==> feedback == old(feedback) + [RetryPrompt])
        && (SomeRetryable(vs) ==> forall k :: 0 <= k < inputs.Length ==> inputs[k] == Analyzed(old(inputs[k]), vs[k]))
        && (!SomeRetryable(vs) ==> forall k :: 0 <= k < inputs.Length ==> inputs[k] == Finished(old(inputs[k]), vs[k]))
        && (!SomeRetryable(vs) ==> feedback == old(feedback) + [General(AllCorrect(vs), FeedbackMessage(answers, hint))])
      ensures updateScoreCalls == old(updateScoreCalls) + (if hasUpdateScore then c.scoreIncrement else 0)
      ensures nextShown == (old(nextShown) || hasNextButton) && nextEnabled == (old(nextEnabled) || hasNextButton)
      ensures totalPairs == old(totalPairs)
    {
      var points := HandleFillInTheBlanksResult(MultiAnswer(answers), inputs, alternatives, classify, hint);
      if points > 0 && hasUpdateScore {
        UpdateScore();
      }
      ShowNextButtonAfterAnswer();
      c := CallbackCompletion(FillInTheBlanks, FillInPoints(points));
    }

    /** `unifiedCallback` for reading comprehension. */
    method ReadingCallback(r: RcResult) returns (c: Completion)
      modifies this
      ensures c == CallbackCompletion(ReadingComprehension, ReadingOutcome(r))
      ensures updateScoreCalls == old(updateScoreCalls) + (if hasUpdateScore then RcCounts(r).0 else 0)
      ensures feedback == old(feedback) + [General(RcAllCorrect(r), RcMessage(r))]
      ensures nextShown == (old(nextShown) || hasNextButton) && nextEnabled == (old(nextEnabled) || hasNextButton)
      ensures checkHidden == old(checkHidden) && shouldShowNext == old(shouldShowNext) && totalPairs == old(totalPairs)
    {
      HandleReadingComprehensionResult(r);
      c := CallbackCompletion(ReadingComprehension, ReadingOutcome(r));
    }
  }
}
