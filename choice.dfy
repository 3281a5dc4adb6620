/**
 * A click on an answer option (quiz-functions.js `handleAnswerClick`, and
 * its twin `handleReadingComprehensionAnswer`): whether the click is
 * correct, which option is highlighted as the right one, and which text is
 * shown as feedback.
 */
module Choice {
  import opened Wrappers

  /** One entry of `answerOptions`; `rationale` is "" when absent. */
  datatype AnswerOption = AnswerOption(text: string, isCorrect: bool, rationale: string)

  /** The index of the first right option (`findIndex`), `None` where the page gets -1. */
  function FirstCorrect(options: seq<AnswerOption>): (r: Option<nat>)
    ensures r.Some? ==> r.value < |options| && options[r.value].isCorrect
    ensures r.Some? ==> forall j :: 0 <= j < r.value ==> !options[j].isCorrect
    ensures r.None? ==> forall j :: 0 <= j < |options| ==> !options[j].isCorrect
  {
    if options == [] then None
    else if options[0].isCorrect then Some(0)
    else
      match FirstCorrect(options[1..])
      case None => None
      case Some(j) => Some(j + 1)
  }

  /** What a click leaves on screen and reports to its callback. */
  datatype ClickOutcome = ClickOutcome(isCorrect: bool, highlighted: Option<nat>, feedback: string)

  /** The click on option `selected`; `hint` is the question's hint, "" when absent. */
  function AnswerClick(options: seq<AnswerOption>, selected: nat, hint: string): (o: ClickOutcome)
    requires selected < |options|
    ensures o.isCorrect <==> options[selected].isCorrect
    ensures o.isCorrect ==> o.highlighted.None?
    ensures !o.isCorrect ==> o.highlighted == FirstCorrect(options)
    ensures o.feedback == (if options[selected].rationale != "" then options[selected].rationale else hint)
  {
    var option := options[selected];
    ClickOutcome(
      option.isCorrect,
      if option.isCorrect then None else FirstCorrect(options),
      if option.rationale != "" then option.rationale else hint)
  }

  /**
   * After a wrong click the option highlighted as right is never the one
   * clicked, and it is the first right option; with no right option nothing
   * is highlighted.
   */
  lemma WrongClickHighlightsAnotherOption(options: seq<AnswerOption>, selected: nat, hint: string)
    requires selected < |options| && !options[selected].isCorrect
    ensures var o := AnswerClick(options, selected, hint);
      && (o.highlighted.Some? ==> o.highlighted.value != selected && options[o.highlighted.value].isCorrect)
      && (o.highlighted.Some? ==> forall j :: 0 <= j < o.highlighted.value ==> !options[j].isCorrect)
      && (o.highlighted.None? <==> forall j :: 0 <= j < |options| ==> !options[j].isCorrect)
  {
    var o := AnswerClick(options, selected, hint);
    if o.highlighted.None? {
      assert forall j :: 0 <= j < |options| ==> !options[j].isCorrect;
    } else {
      assert options[o.highlighted.value].isCorrect;
    }
  }
}
