/**
 * The single-type quiz page of quiz_script.js: the globals `quizData`,
 * `currentQuestionIndex` and `score`, the question card, the answer buttons,
 * the next button and the score display. As in `Session`, each handler is a
 * pure transition on `State`, the properties are lemmas about the
 * transitions, and the class `QuizPage` performs them in place.
 */
module LegacyQuiz {
  import opened Wrappers
  import opened Text
  import opened Choice

  /** One entry of `quizData.questions`. */
  datatype LegacyQuestion = LegacyQuestion(question: string, answerOptions: seq<AnswerOption>, hint: string)

  /** What `quizElement` holds. */
  datatype Content = Blank | QuestionCard(qi: nat) | ErrorCard

  /**
   * The globals and the page: the question card, whether its answer buttons
   * are disabled, whether the next button is displayed, whether `showScore`
   * has hidden the quiz element, and the score display's text once shown.
   */
  datatype State = State(
    quizData: Option<seq<LegacyQuestion>>,
    index: nat,
    score: nat,
    content: Content,
    buttonsDisabled: bool,
    nextVisible: bool,
    quizHidden: bool,
    scoreText: Option<string>)

  /** The page before any quiz is loaded; the next button starts hidden. */
  function Initial(): (s: State)
    ensures s.quizData.None? && s.index == 0 && s.score == 0 && !s.nextVisible && s.scoreText.None?
  {
    State(None, 0, 0, Blank, false, false, false, None)
  }

  const ScorePrefix: string := "¡Has completado el quiz!<br>Tu puntaje es: "
  const ScoreSeparator: string := " de "
  const ScoreEnd: string := "."

  /** The text `showScore` writes: the score, then the number of questions. */
  function ScoreMessage(score: nat, total: nat): (m: string)
    ensures |ScorePrefix| < |m| && m[..|ScorePrefix|] == ScorePrefix && m[|m| - 1] == '.'
  {
    ScorePrefix + NatToString(score) + ScoreSeparator + NatToString(total) + ScoreEnd
  }

  /** Two different results never print the same message: it names both the score and the question count. */
  lemma ScoreMessageInjective(a: nat, b: nat, c: nat, d: nat)
    requires ScoreMessage(a, b) == ScoreMessage(c, d)
    ensures a == c && b == d
  {
    var x, y, u, v := NatToString(a), NatToString(c), NatToString(b), NatToString(d);
    MessageParts(a, b);
    MessageParts(c, d);
    CancelLeft(ScorePrefix, x + (ScoreSeparator + (u + ScoreEnd)), y + (ScoreSeparator + (v + ScoreEnd)));
    DigitsThenOther(x, ScoreSeparator + (u + ScoreEnd), y, ScoreSeparator + (v + ScoreEnd));
    CancelLeft(x, ScoreSeparator + (u + ScoreEnd), ScoreSeparator + (v + ScoreEnd));
    CancelLeft(ScoreSeparator, u + ScoreEnd, v + ScoreEnd);
    DigitsThenOther(u, ScoreEnd, v, ScoreEnd);
    NatToStringRoundTrip(a);
    NatToStringRoundTrip(c);
    NatToStringRoundTrip(b);
    NatToStringRoundTrip(d);
  }

  lemma MessageParts(score: nat, total: nat)
    ensures ScoreMessage(score, total)
      == ScorePrefix + (NatToString(score) + (ScoreSeparator + (NatToString(total) + ScoreEnd)))
  {
  }

  lemma CancelLeft(p: string, a: string, b: string)
    requires p + a == p + b
    ensures a == b
  {
    assert a == (p + a)[|p|..];
    assert b == (p + b)[|p|..];
  }

  predicate AllDigits(s: string) {
    forall i :: 0 <= i < |s| ==> '0' <= s[i] <= '9'
  }

  /** A run of digits followed by a non-digit is read off unambiguously. */
  lemma DigitsThenOther(x: string, r1: string, y: string, r2: string)
    requires AllDigits(x) && AllDigits(y)
    requires |r1| > 0 && !('0' <= r1[0] <= '9') && |r2| > 0 && !('0' <= r2[0] <= '9')
    requires x + r1 == y + r2
    ensures x == y
  {
    var k := if |x| < |y| then |x| else |y|;
    assert ('0' <= (x + r1)[k] <= '9') <==> k < |x|;
    assert ('0' <= (y + r2)[k] <= '9') <==> k < |y|;
    assert x == (x + r1)[..|x|];
    assert y == (y + r2)[..|y|];
  }

  /** `showQuestion(qi)`: nothing without a quiz, nor for an index past the end (the handler fails); else the card with live buttons and the next button hidden. */
  function QuestionShown(s: State, qi: nat): (r: State)
    ensures s.quizData.Some? && qi < |s.quizData.value| ==>
      r == s.(content := QuestionCard(qi), buttonsDisabled := false, nextVisible := false)
    ensures s.quizData.None? || qi >= |s.quizData.value| ==> r == s
  {
    if s.quizData.None? || qi >= |s.quizData.value| then s
    else s.(content := QuestionCard(qi), buttonsDisabled := false, nextVisible := false)
  }

  /** An answer button can be clicked: a question card is displayed and its buttons are enabled. */
  predicate Clickable(s: State) {
    s.quizData.Some? && s.content.QuestionCard? && !s.buttonsDisabled && !s.quizHidden
  }

  /** The buttons and messages a click leaves on the card. */
  datatype ClickFeedback = ClickFeedback(
    correct: bool,
    verdict: string,
    markedCorrect: Option<nat>,
    markedIncorrect: Option<nat>,
    rationale: string,
    hint: string)

  /**
   * The feedback of `handleAnswerClick` on option `selected`: a right click
   * marks that button correct; a wrong one marks it incorrect and marks the
   * first right option correct when there is one.
   */
  function FeedbackFor(q: LegacyQuestion, selected: nat): (f: ClickFeedback)
    requires selected < |q.answerOptions|
    ensures f.correct <==> q.answerOptions[selected].isCorrect
    ensures f.verdict == (if f.correct then "¡Correcto!" else "Incorrecto.")
    ensures f.markedIncorrect.Some? <==> !f.correct
    ensures f.markedIncorrect.Some? ==> f.markedIncorrect.value == selected
    ensures f.markedCorrect.Some? ==>
      f.markedCorrect.value < |q.answerOptions| && q.answerOptions[f.markedCorrect.value].isCorrect
    ensures f.markedCorrect.None? <==> forall j :: 0 <= j < |q.answerOptions| ==> !q.answerOptions[j].isCorrect
    ensures f.markedCorrect.Some? && f.markedIncorrect.Some? ==> f.markedCorrect.value != f.markedIncorrect.value
    ensures f.rationale == "**Razón:** " + q.answerOptions[selected].rationale && f.hint == "**Pista:** " + q.hint
  {
    var option := q.answerOptions[selected];
    ClickFeedback(
      option.isCorrect,
      if option.isCorrect then "¡Correcto!" else "Incorrecto.",
      if option.isCorrect then Some(selected) else FirstCorrect(q.answerOptions),
      if option.isCorrect then None else Some(selected),
      "**Razón:** " + option.rationale,
      "**Pista:** " + q.hint)
  }

  /** The option indices the buttons of the current question carry. */
  predicate ValidSelection(s: State, selected: nat) {
    s.quizData.Some? && s.index < |s.quizData.value| && selected < |s.quizData.value[s.index].answerOptions|
  }

  /** `handleAnswerClick`: every button disabled, a point for a right option, the next button shown. */
  function Clicked(s: State, selected: nat): (r: State)
    requires ValidSelection(s, selected)
    ensures !Clickable(s) ==> r == s
    ensures Clickable(s) ==>
      && r.score == s.score + (if s.quizData.value[s.index].answerOptions[selected].isCorrect then 1 else 0)
      && r.buttonsDisabled && r.nextVisible
      && r.(score := s.score, buttonsDisabled := s.buttonsDisabled, nextVisible := s.nextVisible) == s
  {
    if !Clickable(s) then s
    else
      var option := s.quizData.value[s.index].answerOptions[selected];
      s.(score := s.score + (if option.isCorrect then 1 else 0), buttonsDisabled := true, nextVisible := true)
  }

  /**
   * A click adds one point exactly when the option is right and the buttons
   * were live; the buttons are then disabled, so a second click on the same
   * card changes nothing.
   */
  lemma ClickScoresOnce(s: State, selected: nat, again: nat)
    requires ValidSelection(s, selected) && ValidSelection(s, again)
    ensures var r := Clicked(s, selected);
      && r.score == s.score + (if Clickable(s) && s.quizData.value[s.index].answerOptions[selected].isCorrect then 1 else 0)
      && r.index == s.index && r.quizData == s.quizData
      && (Clickable(s) ==> r.nextVisible && !Clickable(r))
      && Clicked(r, again) == r
  {
  }

  /** `showScore`: the quiz element and the next button hidden, the score display showing the message. */
  function ScoreShown(s: State): (r: State)
    requires s.quizData.Some?
    ensures r.quizHidden && !r.nextVisible && r.scoreText == Some(ScoreMessage(s.score, |s.quizData.value|))
    ensures r.(quizHidden := s.quizHidden, nextVisible := s.nextVisible, scoreText := s.scoreText) == s
  {
    s.(quizHidden := true, nextVisible := false, scoreText := Some(ScoreMessage(s.score, |s.quizData.value|)))
  }

  /** A click on the next button, which can only be clicked while displayed: the index raised, then the next question or the score. */
  function Next(s: State): (r: State)
    ensures !s.nextVisible ==> r == s
    ensures s.nextVisible ==> r.index == s.index + 1 && r.score == s.score && r.quizData == s.quizData
    ensures s.nextVisible && s.quizData.None? ==> r == s.(index := s.index + 1)
  {
    if !s.nextVisible then s
    else
      var advanced := s.(index := s.index + 1);
      if s.quizData.None? then advanced
      else if advanced.index < |s.quizData.value| then QuestionShown(advanced, advanced.index)
      else ScoreShown(advanced)
  }

  /**
   * `loadQuiz` after a successful fetch, exactly as written: the quiz
   * replaced, index and score set to 0, question 0 shown (an empty list
   * fails in `showQuestion` and the error is shown instead); a quiz element
   * hidden by `showScore`, the score display and a displayed next button are
   * left as they were.
   */
  function LoadedAsWritten(s: State, qs: seq<LegacyQuestion>): (r: State)
    ensures r.quizData == Some(qs) && r.index == 0 && r.score == 0
    ensures r.quizHidden == s.quizHidden && r.scoreText == s.scoreText
    ensures qs == [] ==> r.content == ErrorCard && r.nextVisible == s.nextVisible
    ensures qs != [] ==> r.content == QuestionCard(0) && !r.buttonsDisabled && !r.nextVisible
  {
    var reset := s.(quizData := Some(qs), index := 0, score := 0);
    if qs == [] then reset.(content := ErrorCard) else QuestionShown(reset, 0)
  }

  /** `loadQuiz` as evidently intended: the same, on a page whose quiz element is shown again and whose score display and next button are hidden. */
  function Loaded(s: State, qs: seq<LegacyQuestion>): (r: State)
    ensures r.quizData == Some(qs) && r.index == 0 && r.score == 0
    ensures !r.quizHidden && r.scoreText.None? && !r.nextVisible
    ensures qs != [] ==> r.content == QuestionCard(0) && Clickable(r)
    ensures qs == [] ==> r.content == ErrorCard
  {
    LoadedAsWritten(s.(quizHidden := false, scoreText := None, nextVisible := false), qs)
  }

  /** A failed fetch or parse: the error message replaces the card; nothing else changes. */
  function FetchFailed(s: State): (r: State)
    ensures r == s.(content := ErrorCard)
  {
    s.(content := ErrorCard)
  }

  /**
   * The page invariant: without a quiz nothing has happened; with one, the
   * index stays in range, the score never exceeds the questions passed plus
   * the current one once answered, a live card shows the question at the
   * index, the next button is displayed only after an answer, and the score
   * display appears with the quiz element hidden, after the last question,
   * naming the score and the question count.
   */
  predicate Inv(s: State) {
    && (s.quizData.None? ==>
          s.index == 0 && s.score == 0 && !s.content.QuestionCard? && !s.nextVisible && !s.quizHidden
          && s.scoreText.None?)
    && (s.quizData.Some? ==>
          var n := |s.quizData.value|;
          && s.index <= n
          && s.score <= s.index + (if s.buttonsDisabled then 1 else 0)
          && (s.content.QuestionCard? ==> s.content.qi < n && (s.quizHidden || s.content.qi == s.index))
          && (s.nextVisible ==> s.index < n && s.buttonsDisabled && !s.quizHidden)
          && (s.quizHidden ==> s.scoreText.Some?)
          && (s.scoreText.Some? ==>
                s.quizHidden && s.index == n && s.score <= n && !s.nextVisible
                && s.scoreText.value == ScoreMessage(s.score, n)))
  }

  /** Everything the player can do on the page. */
  datatype Event = LoadSucceeded(questions: seq<LegacyQuestion>) | LoadFailed | AnswerClicked(selected: nat) | NextClicked

  /** One event; a click on a button that does not exist does nothing. */
  function Step(s: State, e: Event): State {
    match e
    case LoadSucceeded(qs) => Loaded(s, qs)
    case LoadFailed => FetchFailed(s)
    case AnswerClicked(selected) => if ValidSelection(s, selected) then Clicked(s, selected) else s
    case NextClicked => Next(s)
  }

  function Run(s: State, events: seq<Event>): State
    decreases |events|
  {
    if events == [] then s else Run(Step(s, events[0]), events[1..])
  }

  lemma InitialInv()
    ensures Inv(Initial())
  {
  }

  /** Every event keeps the invariant. */
  lemma {:induction false} StepKeepsInv(s: State, e: Event)
    requires Inv(s)
    ensures Inv(Step(s, e))
  {
    match e
    case NextClicked =>
      if s.nextVisible && s.quizData.Some? && s.index + 1 >= |s.quizData.value| {
        assert s.index + 1 == |s.quizData.value|;
      }
    case _ =>
  }

  /** However the player goes on, the invariant holds. */
  lemma {:induction false} RunKeepsInv(s: State, events: seq<Event>)
    requires Inv(s)
    ensures Inv(Run(s, events))
    decreases |events|
  {
    if events != [] {
      StepKeepsInv(s, events[0]);
      RunKeepsInv(Step(s, events[0]), events[1..]);
    }
  }

  /** Whatever was played, a displayed score is at most the number of questions and is the one the message names. */
  lemma {:induction false} ScoreAtMostQuestions(events: seq<Event>)
    ensures var s := Run(Initial(), events);
      s.scoreText.Some? ==>
        && s.quizData.Some? && s.score <= |s.quizData.value|
        && s.scoreText.value == ScoreMessage(s.score, |s.quizData.value|)
  {
    InitialInv();
    RunKeepsInv(Initial(), events);
  }

  /** A click on the displayed next button moves the index by one, then shows that question or, past the last, the score. */
  lemma NextAdvances(s: State)
    requires Inv(s) && s.nextVisible
    ensures Next(s).index == s.index + 1 && Next(s).score == s.score
    ensures s.index + 1 < |s.quizData.value| ==> Next(s).content == QuestionCard(s.index + 1) && Clickable(Next(s))
    ensures s.index + 1 == |s.quizData.value| ==>
      Next(s).scoreText == Some(ScoreMessage(s.score, |s.quizData.value|)) && !Next(s).nextVisible
  {
  }

  /** A one-question quiz whose only option is right. */
  function OneQuestion(): seq<LegacyQuestion> {
    [LegacyQuestion("", [AnswerOption("", true, "")], "")]
  }

  /**
   * After the score is shown, loading a quiz again leaves the quiz element
   * hidden: the new question cannot be answered and the old score stays on
   * display. The intended load shows a live question.
   */
  lemma HiddenAfterReload()
    ensures var s := Run(Initial(), [LoadSucceeded(OneQuestion()), AnswerClicked(0), NextClicked]);
      && s.scoreText == Some(ScoreMessage(1, 1))
      && var stale := LoadedAsWritten(s, OneQuestion());
      && stale.quizHidden && !Clickable(stale) && stale.scoreText == Some(ScoreMessage(1, 1))
      && Clicked(stale, 0) == stale
      && Clickable(Loaded(s, OneQuestion()))
  {
    var s1 := Loaded(Initial(), OneQuestion());
    var s2 := Clicked(s1, 0);
    var s3 := Next(s2);
    assert Run(Initial(), [LoadSucceeded(OneQuestion()), AnswerClicked(0), NextClicked]) == s3 by {
      assert [LoadSucceeded(OneQuestion()), AnswerClicked(0), NextClicked][1..] == [AnswerClicked(0), NextClicked];
      assert [AnswerClicked(0), NextClicked][1..] == [NextClicked];
    }
  }

  /**
   * Loading an empty quiz after an answer leaves the next button displayed;
   * clicking it reports "0 de 0" with the index past the end of the list.
   * The intended load hides the button, so the click does nothing.
   */
  lemma EmptyReloadKeepsNext()
    ensures var s := Run(Initial(), [LoadSucceeded(OneQuestion()), AnswerClicked(0)]);
      && var stale := LoadedAsWritten(s, []);
      && stale.nextVisible && Next(stale).index == 1 && Next(stale).scoreText == Some(ScoreMessage(0, 0))
      && !Inv(Next(stale))
      && Next(Loaded(s, [])) == Loaded(s, [])
  {
    var s1 := Loaded(Initial(), OneQuestion());
    var s2 := Clicked(s1, 0);
    assert Run(Initial(), [LoadSucceeded(OneQuestion()), AnswerClicked(0)]) == s2 by {
      assert [LoadSucceeded(OneQuestion()), AnswerClicked(0)][1..] == [AnswerClicked(0)];
    }
  }

  /** The page's globals and elements, updated in place by the handlers. */
  class QuizPage {
    var quizData: Option<seq<LegacyQuestion>>
    var currentQuestionIndex: nat
    var score: nat
    var content: Content
    var buttonsDisabled: bool
    var nextVisible: bool
    var quizHidden: bool
    var scoreText: Option<string>

    function Current(): State
      reads this
    {
      State(quizData, currentQuestionIndex, score, content, buttonsDisabled, nextVisible, quizHidden, scoreText)
    }

    ghost predicate Valid()
      reads this
    {
      Inv(Current())
    }

    constructor()
      ensures Current() == Initial() && Valid()
    {
      quizData := None;
      currentQuestionIndex := 0;
      score := 0;
      content := Blank;
      buttonsDisabled := false;
      nextVisible := false;
      quizHidden := false;
      scoreText := None;
    }

    /** `showQuestion(questionIndex)`. */
    method ShowQuestion(questionIndex: nat)
      modifies this
      ensures Current() == QuestionShown(old(Current()), questionIndex)
    {
      if quizData.None? || questionIndex >= |quizData.value| {
        return;
      }
      content := QuestionCard(questionIndex);
      buttonsDisabled := false;
      nextVisible := false;
    }

    /** `handleAnswerClick` on the button of option `selected`. */
    method HandleAnswerClick(selected: nat) returns (feedback: ClickFeedback)
      requires Valid() && Clickable(Current()) && ValidSelection(Current(), selected)
      modifies this
      ensures feedback == FeedbackFor(old(quizData.value[currentQuestionIndex]), selected)
      ensures Current() == Clicked(old(Current()), selected) && Valid()
    {
      StepKeepsInv(Current(), AnswerClicked(selected));
      var currentQuestion := quizData.value[currentQuestionIndex];
      buttonsDisabled := true;
      feedback := FeedbackFor(currentQuestion, selected);
      if currentQuestion.answerOptions[selected].isCorrect {
        score := score + 1;
      }
      nextVisible := true;
    }

    /** `showScore`. */
    method ShowScore()
      requires quizData.Some?
      modifies this
      ensures Current() == ScoreShown(old(Current()))
    {
      quizHidden := true;
      nextVisible := false;
      scoreText := Some(ScoreMessage(score, |quizData.value|));
    }

    /** The next button's click listener. */
    method NextClicked()
      requires Valid()
      modifies this
      ensures Current() == Next(old(Current())) && Valid()
    {
      StepKeepsInv(Current(), Event.NextClicked);
      if !nextVisible {
        return;
      }
      currentQuestionIndex := currentQuestionIndex + 1;
      if quizData.None? {
        return;
      }
      if currentQuestionIndex < |quizData.value| {
        ShowQuestion(currentQuestionIndex);
      } else {
        ShowScore();
      }
    }

    /** `loadQuiz` after a successful fetch of `questions`, on a page restored for the new quiz. */
    method LoadQuiz(questions: seq<LegacyQuestion>)
      requires Valid()
      modifies this
      ensures Current() == Loaded(old(Current()), questions) && Valid()
    {
      StepKeepsInv(Current(), LoadSucceeded(questions));
      quizHidden := false;
      scoreText := None;
      nextVisible := false;
      quizData := Some(questions);
      currentQuestionIndex := 0;
      score := 0;
      if questions == [] {
        content := ErrorCard;
      } else {
        ShowQuestion(0);
      }
    }

    /** `loadQuiz` when the fetch or the parse fails. */
    method LoadQuizFailed()
      requires Valid()
      modifies this
      ensures Current() == FetchFailed(old(Current())) && Valid()
    {
      StepKeepsInv(Current(), LoadFailed);
      content := ErrorCard;
    }
  }
}
