/**
 * The quiz session of quiz-system.js: the module globals `exerciseData`,
 * `currentQuestionIndex`, `score` and the matching counters, the screen the
 * player sees, and the visibility of the next button. Each handler is a pure
 * transition on `State`, the properties are lemmas about those transitions,
 * and the class `QuizSession` holds the globals as fields and performs the
 * same transitions in place.
 */
module Session {
  import opened Wrappers
  import opened Results
  import opened Shuffle
  import opened Choice
  import opened FillIn
  import Matching

  /** A question as `showQuestion` reads it: its `type` ("" when missing) and the length of its `pairs`. */
  datatype Question = Question(qtype: string, pairCount: nat)

  /** The renderer `showQuestion` picks. */
  datatype View = MultipleChoiceView | FillInView | MatchingView | ReadingView

  /** The question type, "multiple_choice" when missing, and the renderer chosen for it. */
  function ViewOf(qtype: string): (v: View)
    ensures v == FillInView <==> qtype == "fill_in_the_blanks"
    ensures v == MatchingView <==> qtype == "matching"
    ensures v == ReadingView <==> qtype == "reading_comprehension"
    ensures v == MultipleChoiceView <==>
      (qtype != "fill_in_the_blanks" && qtype != "matching" && qtype != "reading_comprehension")
  {
    var exerciseType := if qtype == "" then "multiple_choice" else qtype;
    if exerciseType == "fill_in_the_blanks" then FillInView
    else if exerciseType == "matching" then MatchingView
    else if exerciseType == "reading_comprehension" then ReadingView
    else MultipleChoiceView
  }

  /** The data handed to the results component. */
  datatype Summary = Summary(score: nat, totalQuestions: nat, percentage: nat, performance: Performance)

  /** What the page shows in place of the exercise. */
  datatype Screen =
    | Home
    | Asking(view: View, current: nat, total: nat)
    | ResultsShown(summary: Summary)
    | ErrorShown(message: string)

  const LoadError: string := "Error al cargar el ejercicio. Por favor, intenta de nuevo."

  /**
   * The globals, the screen, the next button, and whether the current
   * question's controls are already used up (answer buttons disabled, blanks
   * checked, matching completed).
   */
  datatype State = State(
    questions: Option<seq<Question>>,
    index: nat,
    score: nat,
    selectedMatchingItems: seq<string>,
    matchedPairs: nat,
    totalPairs: nat,
    screen: Screen,
    nextVisible: bool,
    answered: bool)

  /** The page before any exercise is loaded. */
  function Initial(): (s: State)
    ensures s.questions.None? && s.index == 0 && s.score == 0 && s.screen == Home && !s.nextVisible
  {
    State(None, 0, 0, [], 0, 0, Home, false, false)
  }

  /** `resetQuestionState`. */
  function ClearQuestionState(s: State): (r: State)
    ensures r.selectedMatchingItems == [] && r.matchedPairs == 0 && r.totalPairs == 0
    ensures r.(selectedMatchingItems := s.selectedMatchingItems, matchedPairs := s.matchedPairs,
               totalPairs := s.totalPairs) == s
  {
    s.(selectedMatchingItems := [], matchedPairs := 0, totalPairs := 0)
  }

  /**
   * `showQuestion(qi)`: nothing without questions; an index past the end
   * fails after the question state was reset; otherwise the renderer for the
   * question's type, progress `qi + 1` of the question count, and
   * `totalPairs` set for matching.
   */
  function QuestionShown(s: State, qi: nat): (r: State)
    ensures r.questions == s.questions && r.index == s.index && r.score == s.score
    ensures r.nextVisible == s.nextVisible
    ensures s.questions.None? ==> r == s
    ensures s.questions.Some? && qi < |s.questions.value| ==>
      var q := s.questions.value[qi];
      && r.screen == Asking(ViewOf(q.qtype), qi + 1, |s.questions.value|)
      && r.totalPairs == (if ViewOf(q.qtype) == MatchingView then q.pairCount else 0)
      && r.matchedPairs == 0 && r.selectedMatchingItems == [] && !r.answered
  {
    if s.questions.None? then s
    else
      var qs := s.questions.value;
      var reset := ClearQuestionState(s);
      if qi >= |qs| then reset
      else
        var view := ViewOf(qs[qi].qtype);
        reset.(screen := Asking(view, qi + 1, |qs|),
               totalPairs := if view == MatchingView then qs[qi].pairCount else 0,
               answered := false)
  }

  /** The progress bar of a question screen: question `current` of `total`. */
  lemma ProgressOfShownQuestion(s: State, qi: nat)
    requires s.questions.Some? && qi < |s.questions.value|
    ensures var r := QuestionShown(s, qi);
      r.screen.Asking? && 0 < r.screen.total && r.screen.current <= r.screen.total
      && ProgressPercent(r.screen.current, r.screen.total) <= 100
      && (qi + 1 == |s.questions.value| ==> ProgressPercent(r.screen.current, r.screen.total) == 100)
  {
  }

  /** The rounded percentage of right answers; an empty exercise (NaN in the page) gives 0. */
  function ResultPercentage(score: nat, total: nat): (p: nat)
    ensures total == 0 ==> p == 0
    ensures total > 0 ==> p == RoundPercent(score, total)
    ensures total > 0 && score <= total ==> p <= 100
    ensures total > 0 && score == total ==> p == 100
    ensures score == 0 ==> p == 0
  {
    if total == 0 then 0
    else if score == total then RoundPercentFull(total); RoundPercent(score, total)
    else if score < total then
      RoundPercentAtMost100(score, total);
      if score == 0 then RoundPercentZero(total); RoundPercent(score, total) else RoundPercent(score, total)
    else RoundPercent(score, total)
  }

  /** `showResults`: hide the exercise and the next button, show score, percentage and performance. */
  function ResultsFor(s: State): (r: State)
    requires s.questions.Some?
    ensures r.screen.ResultsShown? && !r.nextVisible
    ensures var total, summary := |s.questions.value|, r.screen.summary;
      && summary.score == s.score && summary.totalQuestions == total
      && summary.percentage == ResultPercentage(s.score, total)
      && summary.performance == PerformanceData(summary.percentage)
    ensures r.(screen := s.screen, nextVisible := s.nextVisible) == s
  {
    var total := |s.questions.value|;
    var percentage := ResultPercentage(s.score, total);
    s.(screen := ResultsShown(Summary(s.score, total, percentage, PerformanceData(percentage))), nextVisible := false)
  }

  /**
   * A click on the next button: a hidden button cannot be clicked. The index
   * is raised first; with no exercise loaded the handler then fails; else the
   * next question is shown or, past the last, the results.
   */
  function Next(s: State): (r: State)
    ensures !s.nextVisible ==> r == s
    ensures s.nextVisible ==> r.index == s.index + 1 && r.score == s.score && r.questions == s.questions
    ensures s.nextVisible && s.questions.None? ==> r == s.(index := s.index + 1)
  {
    if !s.nextVisible then s
    else
      var advanced := s.(index := s.index + 1);
      if s.questions.None? then advanced
      else if advanced.index < |s.questions.value| then QuestionShown(advanced, advanced.index)
      else ResultsFor(advanced)
  }

  /** A click on a visible next button moves the index by one and either shows that question or the results. */
  lemma NextAdvances(s: State)
    requires s.nextVisible
    ensures Next(s).index == s.index + 1 && Next(s).score == s.score
    ensures s.questions.Some? && s.index + 1 < |s.questions.value| ==>
      Next(s) == QuestionShown(s.(index := s.index + 1), s.index + 1)
    ensures s.questions.Some? && s.index + 1 >= |s.questions.value| ==>
      Next(s).screen.ResultsShown? && !Next(s).nextVisible
      && Next(s).screen.summary.score == s.score
      && Next(s).screen.summary.totalQuestions == |s.questions.value|
  {
  }

  /** An answer is taken only while the question of that kind is on screen and its controls are live. */
  predicate Accepts(s: State, view: View) {
    s.screen.Asking? && s.screen.view == view && !s.answered
  }

  /** The callbacks of the multiple-choice and reading-comprehension renderers: a point if correct, then the next button. */
  function AnswerChosen(s: State, view: View, isCorrect: bool): (r: State)
    requires view == MultipleChoiceView || view == ReadingView
    ensures r.score == s.score + (if Accepts(s, view) && isCorrect then 1 else 0)
    ensures Accepts(s, view) ==> r.nextVisible && r.answered
    ensures !Accepts(s, view) ==> r == s
    ensures r.questions == s.questions && r.index == s.index && r.screen == s.screen
  {
    if Accepts(s, view) then s.(score := s.score + (if isCorrect then 1 else 0), nextVisible := true, answered := true)
    else s
  }

  /** The check callback of the fill-in renderer, given whether every blank matched. */
  function FillInChecked(s: State, allCorrect: bool): (r: State)
    ensures r.score == s.score + (if Accepts(s, FillInView) && allCorrect then 1 else 0)
    ensures Accepts(s, FillInView) ==> r.nextVisible && r.answered
    ensures !Accepts(s, FillInView) ==> r == s
    ensures r.questions == s.questions && r.index == s.index && r.screen == s.screen
  {
    if Accepts(s, FillInView) then s.(score := s.score + (if allCorrect then 1 else 0), nextVisible := true, answered := true)
    else s
  }

  /** The matching callback: only a completed board scores and shows the next button. */
  function MatchingCompleted(s: State, isComplete: bool, isCorrect: bool): (r: State)
    ensures r.score == s.score + (if Accepts(s, MatchingView) && isComplete && isCorrect then 1 else 0)
    ensures Accepts(s, MatchingView) && isComplete ==> r.nextVisible && r.answered
    ensures !(Accepts(s, MatchingView) && isComplete) ==> r == s
    ensures r.questions == s.questions && r.index == s.index && r.screen == s.screen
  {
    if Accepts(s, MatchingView) && isComplete then
      s.(score := s.score + (if isCorrect then 1 else 0), nextVisible := true, answered := true)
    else s
  }

  /**
   * The matching callback exactly as written: every `onComplete(true, true)`
   * that reaches it scores, whatever is on screen, because nothing stops a
   * finished board's handler from calling it again.
   */
  function MatchingCompletedAsWritten(s: State, isComplete: bool, isCorrect: bool): (r: State)
    ensures r.score == s.score + (if isComplete && isCorrect then 1 else 0)
    ensures isComplete ==> r.nextVisible && r.answered
    ensures r.questions == s.questions && r.index == s.index && r.screen == s.screen
  {
    if isComplete then s.(score := s.score + (if isCorrect then 1 else 0), nextVisible := true, answered := true)
    else s
  }

  /** `n` calls of `onComplete(true, true)` reaching the callback as written. */
  function CompletionsAsWritten(s: State, n: nat): State
    decreases n
  {
    if n == 0 then s else CompletionsAsWritten(MatchingCompletedAsWritten(s, true, true), n - 1)
  }

  /** `n` calls of `onComplete(true, true)` reaching the corrected callback. */
  function Completions(s: State, n: nat): State
    decreases n
  {
    if n == 0 then s else Completions(MatchingCompleted(s, true, true), n - 1)
  }

  /** Every answer event, as one type, for statements about all of them. */
  datatype Event =
    | ChoiceAnswered(choiceView: View, choiceCorrect: bool)
    | BlanksChecked(allCorrect: bool)
    | MatchingDone(isComplete: bool, matchingCorrect: bool)

  function OnEvent(s: State, e: Event): State {
    match e
    case ChoiceAnswered(v, ok) => if v == MultipleChoiceView || v == ReadingView then AnswerChosen(s, v, ok) else s
    case BlanksChecked(ok) => FillInChecked(s, ok)
    case MatchingDone(complete, ok) => MatchingCompleted(s, complete, ok)
  }

  /**
   * An answer raises the score by at most one, and by one exactly when the
   * question was live and answered correctly; it never lowers the score and
   * leaves the questions and the index alone. A used-up question ignores
   * further answers.
   */
  lemma AnswerScoresAtMostOnce(s: State, e: Event)
    ensures var r := OnEvent(s, e);
      && s.score <= r.score <= s.score + 1
      && r.questions == s.questions && r.index == s.index
      && (r.score == s.score + 1 ==> !s.answered && r.answered)
      && (s.answered ==> r == s)
  {
  }

  /** `retryExercise`: index and score to zero, question state reset, questions reshuffled, question 0 shown. */
  function Retry(s: State, choices: seq<nat>): (r: State)
    requires s.questions.Some? && ValidChoices(choices, |s.questions.value|)
    ensures r.questions == Some(FisherYates(s.questions.value, choices))
    ensures r.index == 0 && r.score == 0 && r.matchedPairs == 0 && r.nextVisible == s.nextVisible
    ensures s.questions.value != [] ==>
      r.screen == Asking(ViewOf(r.questions.value[0].qtype), 1, |s.questions.value|) && !r.answered
  {
    var reset := ClearQuestionState(s.(index := 0, score := 0));
    var reshuffled := reset.(questions := Some(FisherYates(s.questions.value, choices)));
    QuestionShown(reshuffled, 0)
  }

  /** Retry starts over on the same questions: same multiset, index and score zero. */
  lemma RetryKeepsQuestions(s: State, choices: seq<nat>)
    requires s.questions.Some? && ValidChoices(choices, |s.questions.value|)
    ensures var r := Retry(s, choices);
      && r.questions.Some? && multiset(r.questions.value) == multiset(s.questions.value)
      && r.index == 0 && r.score == 0 && r.matchedPairs == 0
  {
    FisherYatesPermutes(s.questions.value, choices);
  }

  /** `goHome`: `resetSystem` (no exercise, index and score zero, question state reset), then the home screen. */
  function HomeState(s: State): (r: State)
    ensures r.questions.None? && r.index == 0 && r.score == 0
    ensures r.matchedPairs == 0 && r.totalPairs == 0 && r.selectedMatchingItems == []
    ensures r.screen == Home && r.nextVisible == s.nextVisible
  {
    ClearQuestionState(s.(questions := None, index := 0, score := 0)).(screen := Home, answered := false)
  }

  /**
   * `loadExercise` after a successful fetch, exactly as written: the
   * questions are shuffled, the container cleared and the next button
   * hidden, question 0 shown (an empty list fails and shows the error) —
   * and `currentQuestionIndex` and `score` are left as they were.
   */
  function LoadedAsWritten(s: State, qs: seq<Question>, choices: seq<nat>): (r: State)
    requires ValidChoices(choices, |qs|)
    ensures r.index == s.index && r.score == s.score && r.questions == Some(FisherYates(qs, choices))
    ensures !r.nextVisible
    ensures |qs| > 0 ==> r.screen == Asking(ViewOf(r.questions.value[0].qtype), 1, |qs|) && !r.answered
    ensures |qs| == 0 ==> r.screen == ErrorShown(LoadError)
  {
    var loaded := s.(questions := Some(FisherYates(qs, choices)), nextVisible := false, answered := false);
    if |qs| == 0 then QuestionShown(loaded, 0).(screen := ErrorShown(LoadError))
    else QuestionShown(loaded, 0)
  }

  /** `loadExercise` as evidently intended: the same, starting the new exercise from index 0 and score 0. */
  function Loaded(s: State, qs: seq<Question>, choices: seq<nat>): (r: State)
    requires ValidChoices(choices, |qs|)
    ensures r.index == 0 && r.score == 0 && r.questions.Some? && multiset(r.questions.value) == multiset(qs)
    ensures |qs| > 0 ==> r.screen == Asking(ViewOf(r.questions.value[0].qtype), 1, |qs|) && !r.nextVisible
    ensures |qs| == 0 ==> r.screen == ErrorShown(LoadError)
  {
    FisherYatesPermutes(qs, choices);
    LoadedAsWritten(s.(index := 0, score := 0), qs, choices)
  }

  /** A failed fetch or parse: the error replaces the exercise; the globals stay. */
  function FetchFailed(s: State): (r: State)
    ensures r == s.(screen := ErrorShown(LoadError))
  {
    s.(screen := ErrorShown(LoadError))
  }

  /**
   * The session invariant: the score never exceeds the questions left
   * behind plus the current one when it has been answered; within a loaded
   * exercise the index stays in range, a question screen shows the question
   * at the index, and the results screen comes after the last question and
   * agrees with the globals.
   */
  predicate Inv(s: State) {
    && s.score <= s.index + (if s.answered then 1 else 0)
    && (s.questions.Some? ==> s.index <= |s.questions.value|)
    && (s.questions.Some? && s.screen.Asking? ==>
          s.index < |s.questions.value| && s.screen.current == s.index + 1 && s.screen.total == |s.questions.value|)
    && (s.screen.ResultsShown? ==>
          && s.questions.Some? && s.index == |s.questions.value| && s.score <= s.index && !s.nextVisible
          && s.screen.summary.score == s.score && s.screen.summary.totalQuestions == |s.questions.value|
          && s.screen.summary.percentage == ResultPercentage(s.score, |s.questions.value|))
    && (s.questions.None? ==> !s.screen.ResultsShown?)
    && (s.questions.Some? && s.index == |s.questions.value| ==> !s.nextVisible)
  }

  lemma InitialInv()
    ensures Inv(Initial())
  {
  }

  lemma {:induction false} NextKeepsInv(s: State)
    requires Inv(s)
    ensures Inv(Next(s))
  {
    if s.nextVisible && s.questions.Some? && s.index + 1 >= |s.questions.value| {
      assert s.index + 1 == |s.questions.value|;
    }
  }

  lemma {:induction false} EventKeepsInv(s: State, e: Event)
    requires Inv(s)
    ensures Inv(OnEvent(s, e))
  {
  }

  lemma {:induction false} RetryKeepsInv(s: State, choices: seq<nat>)
    requires Inv(s) && s.questions.Some? && ValidChoices(choices, |s.questions.value|)
    ensures Inv(Retry(s, choices))
  {
  }

  lemma {:induction false} GoHomeKeepsInv(s: State)
    requires Inv(s)
    ensures Inv(HomeState(s))
  {
  }

  lemma {:induction false} LoadExerciseKeepsInv(s: State, qs: seq<Question>, choices: seq<nat>)
    requires Inv(s) && ValidChoices(choices, |qs|)
    ensures Inv(Loaded(s, qs, choices))
  {
  }

  lemma {:induction false} LoadFailedKeepsInv(s: State)
    requires Inv(s)
    ensures Inv(FetchFailed(s))
  {
  }

  /** On the results screen the percentage is at most 100, and exactly 100 — "¡Excelente!" — when every question scored. */
  lemma ResultsWithinBounds(s: State)
    requires Inv(s) && s.screen.ResultsShown?
    ensures s.screen.summary.percentage <= 100
    ensures s.score == |s.questions.value| && s.score > 0 ==>
      s.screen.summary.percentage == 100 && TierOf(s.screen.summary.percentage) == Excellent
  {
  }

  /** Five multiple-choice questions. */
  function FiveQuestions(): seq<Question> {
    [Question("", 0), Question("", 0), Question("", 0), Question("", 0), Question("", 0)]
  }

  /**
   * Loading an exercise mid-session (the browser's back button reloads the
   * exercise named in the URL) keeps the old index and score: three right
   * answers into a five-question exercise, a two-question exercise is
   * loaded, its first question answered right and the next button pressed,
   * and the results report 4 of 2, 200%.
   */
  lemma StaleCountersAfterReload()
    ensures var s0 := State(Some(FiveQuestions()), 3, 3, [], 0, 0, Asking(MultipleChoiceView, 4, 5), true, true);
      && Inv(s0)
      && var s1 := LoadedAsWritten(s0, [Question("", 0), Question("", 0)], [0, 0]);
      && var s2 := AnswerChosen(s1, MultipleChoiceView, true);
      && var s3 := Next(s2);
      && s3.screen.ResultsShown? && s3.screen.summary.score == 4 && s3.screen.summary.totalQuestions == 2
      && s3.screen.summary.percentage == 200
      && !Inv(s3)
  {
    var s0 := State(Some(FiveQuestions()), 3, 3, [], 0, 0, Asking(MultipleChoiceView, 4, 5), true, true);
    var s1 := LoadedAsWritten(s0, [Question("", 0), Question("", 0)], [0, 0]);
    assert s1.index == 3 && s1.score == 3 && s1.screen == Asking(MultipleChoiceView, 1, 2);
    var s3 := Next(AnswerChosen(s1, MultipleChoiceView, true));
    assert RoundPercent(4, 2) == 200 by {
      DivUnique(200 * 4 + 2, 2 * 2, 200, 2);
    }
  }

  /** An exercise of two matching questions with two pairs each. */
  function TwoMatching(): seq<Question> {
    [Question("matching", 2), Question("matching", 2)]
  }

  /** Loading `TwoMatching` shows its first board, with the counters at zero. */
  lemma TwoMatchingLoaded()
    ensures Loaded(Initial(), TwoMatching(), [0, 0]) ==
      State(Some(TwoMatching()), 0, 0, [], 0, 2, Asking(MatchingView, 1, 2), false, false)
    ensures Inv(Loaded(Initial(), TwoMatching(), [0, 0]))
  {
    LoadExerciseKeepsInv(Initial(), TwoMatching(), [0, 0]);
    assert FisherYates(TwoMatching(), [0, 0]) == TwoMatching() by {
      FisherYatesPermutes(TwoMatching(), [0, 0]);
    }
  }

  /** One completion on the first board, then `n` on the second, reaching the callback as written. */
  lemma AsWrittenTwoBoards(n: nat)
    ensures var s0 := Loaded(Initial(), TwoMatching(), [0, 0]);
      var s4 := Next(CompletionsAsWritten(Next(CompletionsAsWritten(s0, 1)), n));
      0 < n ==> s4.screen.ResultsShown? && s4.screen.summary.score == 1 + n && s4.screen.summary.totalQuestions == 2
  {
    TwoMatchingLoaded();
    var s0 := Loaded(Initial(), TwoMatching(), [0, 0]);
    var s1 := CompletionsAsWritten(s0, 1);
    CompletionsAsWrittenCount(s0, 1);
    var s2 := Next(s1);
    assert s2 == State(Some(TwoMatching()), 1, 1, [], 0, 2, Asking(MatchingView, 2, 2), true, false);
    CompletionsAsWrittenCount(s2, n);
    NextAdvances(CompletionsAsWritten(s2, n));
  }

  /** As written, each of `n` completions scores a point and shows the next button. */
  lemma {:induction false} CompletionsAsWrittenCount(s: State, n: nat)
    ensures CompletionsAsWritten(s, n).score == s.score + n
    ensures var r := CompletionsAsWritten(s, n);
      r.(score := s.score) == if n == 0 then s else s.(nextVisible := true, answered := true)
    decreases n
  {
    if n > 0 {
      CompletionsAsWrittenCount(MatchingCompletedAsWritten(s, true, true), n - 1);
    }
  }

  /**
   * The handlers of finished matching boards stay on the page's container:
   * with two matching questions, matching the first board in order fires one
   * completion, matching the second fires three (two from the first board's
   * handler), every one of them scores, and the results report 4 of 2, 200%.
   */
  lemma StaleMatchingListenersInflateScore()
    ensures var (b1, h1) := Matching.Installed(Matching.DogCat(), ["perro", "gato"]);
      var (b2, h2) := Matching.Installed(Matching.SunMoon(), ["sol", "luna"]);
      var (_, hs1, f1) := Matching.PageRun(b1, [h1], Matching.MatchInOrder());
      var f2 := Matching.PageRun(b2, Matching.NewBoard(hs1, h2), Matching.MatchInOrder()).2;
      var s0 := Loaded(Initial(), TwoMatching(), [0, 0]);
      var s4 := Next(CompletionsAsWritten(Next(CompletionsAsWritten(s0, f1)), f2));
      && Inv(s0) && s0.screen == Asking(MatchingView, 1, 2)
      && s4.screen.ResultsShown? && s4.screen.summary.score == 4 && s4.screen.summary.totalQuestions == 2
      && s4.screen.summary.percentage == 200
      && !Inv(s4)
  {
    Matching.TwoMatchingQuestions();
    TwoMatchingLoaded();
    AsWrittenTwoBoards(3);
    assert RoundPercent(4, 2) == 200 by {
      DivUnique(200 * 4 + 2, 2 * 2, 200, 2);
    }
  }

  /** One completion per board reaching the corrected callback: 2 of 2, 100%, within the invariant. */
  lemma CorrectedTwoBoards()
    ensures var s0 := Loaded(Initial(), TwoMatching(), [0, 0]);
      var s4 := Next(Completions(Next(Completions(s0, 1)), 1));
      && s4.screen.ResultsShown? && s4.screen.summary.score == 2 && s4.screen.summary.totalQuestions == 2
      && s4.screen.summary.percentage == 100
      && Inv(s4)
  {
    TwoMatchingLoaded();
    var s2 := Next(Completions(Loaded(Initial(), TwoMatching(), [0, 0]), 1));
    assert s2 == State(Some(TwoMatching()), 1, 1, [], 0, 2, Asking(MatchingView, 2, 2), true, false);
    assert Completions(s2, 1) == s2.(score := 2, answered := true);
    RoundPercentFull(2);
  }

  /**
   * With only the live board's handler listening, each board completes once
   * and the same two boards end with 2 of 2, 100%, within the invariant.
   */
  lemma OneListenerPerBoardScoresOnce()
    ensures var (b1, h1) := Matching.Installed(Matching.DogCat(), ["perro", "gato"]);
      var (b2, h2) := Matching.Installed(Matching.SunMoon(), ["sol", "luna"]);
      var f1 := Matching.PageRun(b1, [h1], Matching.MatchInOrder()).2;
      var f2 := Matching.PageRun(b2, [h2], Matching.MatchInOrder()).2;
      var s0 := Loaded(Initial(), TwoMatching(), [0, 0]);
      var s4 := Next(Completions(Next(Completions(s0, f1)), f2));
      && s4.screen.ResultsShown? && s4.screen.summary.score == 2 && s4.screen.summary.totalQuestions == 2
      && s4.screen.summary.percentage == 100
      && Inv(s4)
  {
    Matching.TwoMatchingQuestions();
    CorrectedTwoBoards();
  }

  /** The page's globals, updated in place by the handlers. */
  class QuizSession {
    var exerciseData: Option<seq<Question>>
    var currentQuestionIndex: nat
    var score: nat
    var selectedMatchingItems: seq<string>
    var matchedPairs: nat
    var totalPairs: nat
    var screen: Screen
    var nextVisible: bool
    var answered: bool

    function Current(): State
      reads this
    {
      State(exerciseData, currentQuestionIndex, score, selectedMatchingItems, matchedPairs, totalPairs,
            screen, nextVisible, answered)
    }

    ghost predicate Valid()
      reads this
    {
      Inv(Current())
    }

    constructor()
      ensures Current() == Initial() && Valid()
    {
      exerciseData := None;
      currentQuestionIndex := 0;
      score := 0;
      selectedMatchingItems := [];
      matchedPairs := 0;
      totalPairs := 0;
      screen := Home;
      nextVisible := false;
      answered := false;
      InitialInv();
    }

    /** `resetQuestionState`. */
    method ResetQuestionState()
      modifies this
      ensures Current() == ClearQuestionState(old(Current()))
    {
      selectedMatchingItems := [];
      matchedPairs := 0;
      totalPairs := 0;
    }

    /** `showQuestion(questionIndex)`. */
    method ShowQuestion(questionIndex: nat)
      modifies this
      ensures Current() == QuestionShown(old(Current()), questionIndex)
    {
      if exerciseData.None? {
        return;
      }
      var questions := exerciseData.value;
      ResetQuestionState();
      if questionIndex >= |questions| {
        return;
      }
      var questionData := questions[questionIndex];
      var view := ViewOf(questionData.qtype);
      if view == MatchingView {
        totalPairs := questionData.pairCount;
      }
      screen := Asking(view, questionIndex + 1, |questions|);
      answered := false;
    }

    /** `nextQuestion`, reached by clicking the next button. */
    method NextQuestion()
      requires Valid()
      modifies this
      ensures Current() == Next(old(Current())) && Valid()
    {
      NextKeepsInv(Current());
      if !nextVisible {
        return;
      }
      currentQuestionIndex := currentQuestionIndex + 1;
      if exerciseData.None? {
        return;
      }
      if currentQuestionIndex < |exerciseData.value| {
        ShowQuestion(currentQuestionIndex);
      } else {
        ShowResults();
      }
    }

    /** `showResults`. */
    method ShowResults()
      requires exerciseData.Some?
      modifies this
      ensures Current() == ResultsFor(old(Current()))
    {
      nextVisible := false;
      var totalQuestions := |exerciseData.value|;
      var percentage := ResultPercentage(score, totalQuestions);
      screen := ResultsShown(Summary(score, totalQuestions, percentage, PerformanceData(percentage)));
    }

    /** The multiple-choice callback after `handleAnswerClick` on option `selected`. */
    method AnswerMultipleChoice(options: seq<AnswerOption>, selected: nat, hint: string) returns (outcome: ClickOutcome)
      requires selected < |options| && Valid()
      modifies this
      ensures outcome == AnswerClick(options, selected, hint)
      ensures Current() == AnswerChosen(old(Current()), MultipleChoiceView, options[selected].isCorrect) && Valid()
    {
      EventKeepsInv(Current(), ChoiceAnswered(MultipleChoiceView, options[selected].isCorrect));
      outcome := AnswerClick(options, selected, hint);
      if Accepts(Current(), MultipleChoiceView) {
        if outcome.isCorrect {
          score := score + 1;
        }
        nextVisible := true;
        answered := true;
      }
    }

    /** The reading-comprehension callback of quiz-system.js. */
    method AnswerReading(options: seq<AnswerOption>, selected: nat, hint: string) returns (outcome: ClickOutcome)
      requires selected < |options| && Valid()
      modifies this
      ensures outcome == AnswerClick(options, selected, hint)
      ensures Current() == AnswerChosen(old(Current()), ReadingView, options[selected].isCorrect) && Valid()
    {
      EventKeepsInv(Current(), ChoiceAnswered(ReadingView, options[selected].isCorrect));
      outcome := AnswerClick(options, selected, hint);
      if Accepts(Current(), ReadingView) {
        if outcome.isCorrect {
          score := score + 1;
        }
        nextVisible := true;
        answered := true;
      }
    }

    /**
     * The fill-in check callback, reached through the check button of a live
     * fill-in question: grade every blank, score one point when all match,
     * show the next button.
     */
    method CheckBlanks(inputs: array<BlankInput>, hint: string) returns (message: string)
      requires Valid() && Accepts(Current(), FillInView)
      modifies this, inputs
      ensures message == FeedbackMessage(Answers(old(inputs[..])), hint)
      ensures forall k :: 0 <= k < inputs.Length ==> inputs[k] == Checked(old(inputs[k]))
      ensures Current() == FillInChecked(old(Current()), AllMatch(Answers(old(inputs[..])))) && Valid()
    {
      ghost var before := Current();
      var isCorrect;
      isCorrect, message := CheckAllBlanks(inputs, hint);
      assert Current() == before;
      RecordBlanksChecked(isCorrect);
    }

    /** The end of the fill-in callback: a point if every blank matched, then the next button. */
    method RecordBlanksChecked(allCorrect: bool)
      requires Valid()
      modifies this
      ensures Current() == FillInChecked(old(Current()), allCorrect) && Valid()
    {
      EventKeepsInv(Current(), BlanksChecked(allCorrect));
      if Accepts(Current(), FillInView) {
        if allCorrect {
          score := score + 1;
        }
        nextVisible := true;
        answered := true;
      }
    }

    /**
     * The matching callback with one listener per board: only the live
     * board's completion scores and shows the next button (see
     * `MatchingCompletedAsWritten` for the callback as written).
     */
    method MatchingCallback(isComplete: bool, isCorrect: bool)
      requires Valid()
      modifies this
      ensures Current() == MatchingCompleted(old(Current()), isComplete, isCorrect) && Valid()
    {
      EventKeepsInv(Current(), MatchingDone(isComplete, isCorrect));
      if Accepts(Current(), MatchingView) && isComplete {
        if isCorrect {
          score := score + 1;
        }
        nextVisible := true;
        answered := true;
      }
    }

    /** `retryExercise`, with the shuffle's random draws as `choices`. */
    method RetryExercise(choices: seq<nat>)
      requires Valid() && exerciseData.Some? && ValidChoices(choices, |exerciseData.value|)
      modifies this
      ensures Current() == Retry(old(Current()), choices) && Valid()
    {
      RetryKeepsInv(Current(), choices);
      currentQuestionIndex := 0;
      score := 0;
      ResetQuestionState();
      var questions := exerciseData.value;
      var a := new Question[|questions|](i requires 0 <= i < |questions| => questions[i]);
      assert a[..] == questions;
      var shuffled := ShuffleArray(a, choices);
      exerciseData := Some(shuffled[..]);
      ShowQuestion(0);
    }

    /** `goHome`. */
    method GoHome()
      requires Valid()
      modifies this
      ensures Current() == HomeState(old(Current())) && Valid()
    {
      GoHomeKeepsInv(Current());
      exerciseData := None;
      currentQuestionIndex := 0;
      score := 0;
      ResetQuestionState();
      screen := Home;
      answered := false;
    }

    /** `loadExercise` after a successful fetch of `questions`, starting the exercise over. */
    method LoadExercise(questions: seq<Question>, choices: seq<nat>)
      requires Valid() && ValidChoices(choices, |questions|)
      modifies this
      ensures Current() == Loaded(old(Current()), questions, choices) && Valid()
    {
      LoadExerciseKeepsInv(Current(), questions, choices);
      currentQuestionIndex := 0;
      score := 0;
      var a := new Question[|questions|](i requires 0 <= i < |questions| => questions[i]);
      assert a[..] == questions;
      var shuffled := ShuffleArray(a, choices);
      exerciseData := Some(shuffled[..]);
      nextVisible := false;
      answered := false;
      ShowQuestion(0);
      if |questions| == 0 {
        screen := ErrorShown(LoadError);
      }
    }

    /** `loadExercise` when the fetch or the parse fails. */
    method LoadFailed()
      requires Valid()
      modifies this
      ensures Current() == FetchFailed(old(Current())) && Valid()
    {
      LoadFailedKeepsInv(Current());
      screen := ErrorShown(LoadError);
    }
  }
}
