# english_quiz, modelled in Dafny

english_quiz is a browser quiz for learners of English. A player loads an
exercise file and answers its questions one at a time. The question types are
multiple choice, fill in the blanks, matching pairs and reading
comprehension. The page counts right answers, shows the progress, and ends
with a results screen: the score, a rounded percentage, a performance level
and the options to retry or go home. There is also an older single-type page
(quiz_script.js) with its own globals and score text. A unified renderer
(exercise-renderer.js) grades answers through a table of exercise types and a
shared callback. Its fill-in check uses an answer classifier that may offer
a retry.

This project models the core logic in Dafny:

- `Text` (text.dfy) holds the string helpers the page relies on: `trim`,
  ASCII `toLowerCase`, `indexOf`/`includes`/`replace` with a string
  pattern, `join`, and the decimal printing of counts.
- `Results` (results.dfy) holds the rounded percentage, the performance
  levels and CSS classes, and the progress-bar percentage.
- `ExerciseFiles` (exercise_files.dfy) converts between exercise names and
  file names.
- `Shuffle` (shuffle.dfy) is the Fisher–Yates shuffle. It is a pure
  specification plus the in-place loop over an array.
- `Matching` (matching.dfy) is the click handler of the matching board:
  - a pure step of one handler on the buttons of the page;
  - the dispatch of a page click to every handler installed on the quiz
    container, oldest first;
  - the class `MatchingExercise`, which holds one handler's closure state and
    its buttons and updates them in place.
- `Choice` (choice.dfy) handles a click on an answer option, for multiple
  choice and reading comprehension.
- `FillIn` (fill_in.dfy) covers the blanks:
  - the answers read from the inputs;
  - the case-insensitive check of quiz-system.js, an imperative loop over an
    array of inputs;
  - its feedback message;
  - the effect of one classifier verdict on one input.
- `Renderer` (renderer.dfy) covers the unified renderer:
  - the exercise-type table and the extraction of `isCorrect` and of the
    score increment;
  - the retry-aware fill-in check;
  - the reading-comprehension aggregation;
  - the class `ExerciseContext`, the context object the renderer mutates.
- `Session` (session.dfy) is the quiz session of quiz-system.js. It has
  pure transitions on a `State` value, an invariant proved to be kept by
  every handler, and the class `QuizSession`, whose methods update the
  globals in place. Each method's contract says its new state is the pure
  transition of its old state.
- `LegacyQuiz` (legacy_quiz.dfy) is the same treatment of quiz_script.js,
  with the class `QuizPage`.

`Math.random` is replaced by a sequence of draws, `choices`. The draw at
step `i` of the shuffle is `choices[i]`, a number in [0, i]. The answer
classifier `analyzeUserAnswer` is a function parameter of type
`Classifier`, so every property about it holds for any classifier. Each
fetch of an exercise file becomes an input: it either succeeds with a list
of questions or fails.

A matching handler is installed on the quiz container itself
(quiz-functions.js:345). Clearing the container between questions removes
its children but not its listeners (quiz-functions.js:42-46), so the handlers
of earlier boards go on receiving clicks. A handler's selection is the
clicked button element itself (quiz-functions.js:352-358), so an earlier
handler may still hold a button of its own board, which is off the page, and
judge it against a click on the live board. `Matching.Dispatch` models this,
and "## Findings" shows what it does to the score.

On the retry path a blank answered correctly is marked correct but not
disabled (exercise-renderer.js:258-262); `FillIn.Analyzed` leaves `disabled`
as it was.

## Model

| member | source | states |
|---|---|---|
| Text.Trim | js/quiz-functions.js:243 | The result is the input with its leading and trailing JS whitespace removed: a slice of the input with only whitespace before and after it, which neither starts nor ends with whitespace. |
| Text.TrimIdempotent | js/quiz-functions.js:243 | Trimming twice gives the same answer as trimming once. |
| Text.ToLower | js/quiz-system.js:149 | Lower-casing keeps the length and maps each character by itself. |
| Text.IndexFrom | js/quiz-system.js:562-571 | The search returns the first occurrence at or after the start, or none when there is no occurrence. |
| Text.JoinContainsEachPart | js/quiz-system.js:222 | Each part of a joined list can be found in the joined string. |
| Text.NatToString | js/quiz_script.js:104 | A printed count is a non-empty run of digits with no leading zero. |
| Text.NatToStringRoundTrip | js/quiz_script.js:104 | Reading the printed digits back gives the count. |
| Results.RoundPercent | js/quiz-system.js:259 | The result r satisfies 2·whole·r ≤ 200·part + whole < 2·whole·(r+1): it is 100·part/whole rounded to the nearest integer, halves up, as Math.round does for non-negative values. |
| Results.RoundPercentAtMost100 | js/quiz-system.js:259 | A score no larger than the total shows at most 100%. |
| Results.RoundPercentFull | js/quiz-system.js:259 | A full score shows exactly 100%. |
| Results.RoundPercentZero | js/quiz-system.js:259 | A zero score shows 0%. |
| Results.RoundPercentMonotone | js/quiz-system.js:259 | A higher score never shows a lower percentage. |
| Results.TierOf | js/quiz-system.js:282-304 | Each performance level holds exactly on its band of percentages: 90 and up, 70 to 89, 50 to 69, below 50. |
| Results.TierMonotone | js/quiz-system.js:282-304 | A higher percentage never earns a lower level. |
| Results.PerformanceData | js/quiz-system.js:282-304 | The title is ¡Excelente! iff the percentage is at least 90, ¡Buen trabajo! iff it is 70 to 89, Puede mejorar iff 50 to 69, Necesita práctica iff below 50. Each band shows its own message. |
| Results.DescribeInjective | js/quiz-system.js:282-304 | Different levels have different titles. |
| Results.PerformanceClass | js/quiz-functions.js:733-737 | Only three CSS classes are ever returned. |
| Results.ClassAgreesWithTier | js/quiz-functions.js:733-737 | The CSS class agrees with the results level: excellent with ¡Excelente!, good with ¡Buen trabajo!, fair with the two lower levels. |
| Results.ProgressPercent | js/quiz-functions.js:746-750 | Progress is `RoundPercent(current, total)`, which is Math.round(current / total · 100). It is at most 100% within the exercise and exactly 100% on the last question. |
| ExerciseFiles.ExerciseNameToFile | js/quiz-system.js:562-564 | A name that contains ".json" is kept; any other name gets ".json" appended. |
| ExerciseFiles.FileToExerciseName | js/quiz-system.js:569-571 | A file name without ".json" is returned unchanged. Otherwise the first occurrence of ".json" is cut out, and the rest is kept in order. |
| ExerciseFiles.FileNameHasExtension | js/quiz-system.js:562-564 | Every produced file name contains ".json". |
| ExerciseFiles.NameToFileIdempotent | js/quiz-system.js:562-564 | Converting a file name again changes nothing. |
| ExerciseFiles.FirstExtensionIsSuffix | js/quiz-system.js:569-571 | For a name without ".json", the first ".json" in the file name is the appended suffix. |
| ExerciseFiles.NameFileRoundTrip | js/quiz-system.js:562-571 | A name without ".json" survives the trip to a file name and back. |
| Shuffle.Swap | js/quiz-functions.js:55 | The swap exchanges the two positions and leaves every other position alone. |
| Shuffle.FisherYates | js/quiz-functions.js:51-58 | The shuffle keeps the length. |
| Shuffle.FisherYatesPermutes | js/quiz-functions.js:51-58 | The shuffle returns a permutation of its input: the same multiset. |
| Shuffle.ShuffleFromPermutes | js/quiz-functions.js:53-56 | Every run of loop steps keeps the multiset of elements. |
| Shuffle.IdentityDrawsKeepOrder | js/quiz-functions.js:53-56 | When every draw equals its step, the order is kept. |
| Shuffle.LastSlotIsFirstDraw | js/quiz-functions.js:53-56 | The last position holds the element picked by the first draw and is never touched again. |
| Shuffle.StepsBelowKeepSuffix | js/quiz-functions.js:53-56 | The steps below `i` never touch the positions above `i`. |
| Shuffle.ShuffleArray | js/quiz-functions.js:51-58 | The loop works on a fresh copy of the array, of the same length. It produces exactly the Fisher–Yates specification of the input's contents. |
| Matching.LastIndexOf | js/quiz-functions.js:343 | The reference search finds the last pair with a given left value, or reports that none exists. |
| Matching.PairMapIsLastWins | js/quiz-functions.js:343 | The map of correct pairs knows exactly the left values, and for each gives the right value of its last pair. |
| Matching.CorrectMatchIff | js/quiz-functions.js:366 | A pair is correct iff the last pair with that left value has that right value. |
| Matching.PairMapOfTwo | js/quiz-functions.js:343 | The map of two pairs is built by two `set` calls in order. |
| Matching.Disable | js/quiz-functions.js:373-374 | Disabling a button sets its flag, keeps every value and leaves the other buttons alone. |
| Matching.CountDisabled | js/quiz-functions.js:375 | The number of disabled buttons never exceeds the column's length. |
| Matching.DisableCounts | js/quiz-functions.js:373-375 | Disabling an enabled button adds exactly one to the count of disabled buttons. |
| Matching.FreshColumn | js/quiz-functions.js:336-343 | A freshly rendered column shows the given values, all enabled. |
| Matching.Installed | js/quiz-functions.js:336-343 | Right after installation the left column shows the pairs' left values and the right column the given values. Nothing is disabled, selected or matched, and the handler's invariant holds. |
| Matching.Step | js/quiz-functions.js:345-403 | A click keeps the lengths of both columns, and the handler's map and pair count. |
| Matching.StepKeepsInv | js/quiz-functions.js:345-403 | Every click keeps the handler's invariant on its own buttons: selections are enabled buttons, and the count of matches equals the number of disabled buttons in each column. |
| Matching.StepEffects | js/quiz-functions.js:345-403 | A click is ignored iff its button is missing or disabled. It evaluates a pair iff the button is enabled and the other side is already selected; otherwise it only records the selection. The pair is correct iff the map agrees. A correct pair disables both buttons and adds one match; a wrong one changes only the selections. Completion is reported iff a correct pair brings the count to the number of pairs. |
| Matching.CompleteBoardIsInert | js/quiz-functions.js:398-401 | Once every pair is matched, no click on its own buttons makes the handler evaluate a pair again. |
| Matching.StepCompletes | js/quiz-functions.js:345-403 | One click keeps the invariant, never lowers the count, and reports completion iff it brings the count up to the number of pairs. |
| Matching.EvaluateCompletes | js/quiz-functions.js:366-401 | Evaluating the selected pair keeps the invariant and reports completion iff it brings the count up to the number of pairs. |
| Matching.RunCompletesAtMostOnce | js/quiz-functions.js:398-401 | With only its own handler listening, completion fires at most once over any sequence of clicks, and fires iff the run brings the count up to the number of pairs. The count never decreases. |
| Matching.Dispatch | js/quiz-functions.js:345-403 | A page click reaches every handler installed on the container, oldest first, each on the buttons the previous one left, and the page keeps one handler per installed board. |
| Matching.Detach | js/quiz-functions.js:42-46 | Emptying the container for the next question leaves a handler listening with its map, pair count and matches, and with its selections, by value, off the page. |
| Matching.NewBoard | js/quiz-functions.js:336-345 | Installing the next board keeps every earlier handler, detached, and adds the new handler last. |
| Matching.DisableHeld | js/quiz-functions.js:373-374 | Disabling a held button keeps the column's length, and changes nothing when the button is off the page. |
| Matching.HeldSelectionMatchesOnNextBoard | js/quiz-functions.js:345-403 | With "dog" selected on the dog/cat board before moving on, a click on "perro" on the cat/dog board is judged by the earlier handler on its held "dog" and accepted: it disables the live "perro", leaves the live "dog" enabled and counts a match of its own. The live handler ignores the click, no handler can take "perro" again, and the live board leaves its handler's invariant. With the live handler alone, the click only selects "perro". |
| Matching.DispatchOne | js/quiz-functions.js:345 | With one handler listening, a page click is that handler's step. |
| Matching.PageRunOne | js/quiz-functions.js:345-403 | With one handler listening, the page runs exactly as that handler's own run. |
| Matching.DispatchTwo | js/quiz-functions.js:345-403 | With two handlers listening, a page click is the older handler's step, then the newer one's step on the buttons the older one left. |
| Matching.PageRunTwo | js/quiz-functions.js:345 | Two page clicks are two dispatches, the second on what the first left. |
| Matching.PageRunConcat | js/quiz-functions.js:345 | Running two click sequences one after the other is running their concatenation. |
| Matching.SelectsLeft | js/quiz-functions.js:352-358 | An enabled left button becomes the selection, holding its position and value, when nothing is selected on the right. |
| Matching.RejectsPair | js/quiz-functions.js:366-401 | A pair the map rejects only clears the selection. Completion is still reported when the count already equals the number of pairs. |
| Matching.AcceptsPair | js/quiz-functions.js:366-401 | A pair of held buttons on the page that the map accepts disables both buttons, adds one match and clears the selection. |
| Matching.LiveHandlerMatches | js/quiz-functions.js:345-401 | Alone on the page, a handler matches left and right button `k` with two clicks when its map pairs them. |
| Matching.StaleAndLiveHandlersMatch | js/quiz-functions.js:345-401 | A finished handler listening before the live one also judges those two clicks. Its map does not know the left value, so it rejects the pair and reports completion again. |
| Matching.PairsThenPairs | js/quiz-functions.js:345 | Matching the first pair and then the second is matching both in order. |
| Matching.LiveHandlerCompletesOnce | js/quiz-functions.js:345-401 | Alone on the page, a two-pair handler completes once and ends with both pairs matched. |
| Matching.StaleHandlerCompletesAgain | js/quiz-functions.js:345-401 | With a finished handler still listening, matching a new two-pair board fires three completions instead of one. |
| Matching.TwoMatchingQuestions | js/quiz-functions.js:336-401 | For the boards dog/perro, cat/gato and then sun/sol, moon/luna, the first board completes once. The second board then fires three completions, where its own handler alone fires one. |
| Matching.MatchingExercise.constructor | js/quiz-functions.js:336-343 | The closure state and the buttons start as `Installed`, with no completion reported. |
| Matching.MatchingExercise.Click | js/quiz-functions.js:345-403 | The in-place click performs the pure step of this handler on its own buttons and keeps its invariant. `onComplete` is called at most once over the board's life. |
| Matching.MatchingExercise.EvaluatePair | js/quiz-functions.js:366-401 | The in-place evaluation is `Evaluate`, keeps the invariant, and counts a completion exactly when it reports one. |
| Choice.FirstCorrect | js/quiz-functions.js:143 | The result is the first right option, or none when no option is right. |
| Choice.AnswerClick | js/quiz-functions.js:123-152 | The click is correct iff the chosen option is right. A wrong click highlights the first right option. The feedback is the option's rationale, or the hint when there is none. |
| Choice.WrongClickHighlightsAnotherOption | js/quiz-functions.js:488-516 | After a wrong click the highlighted option is a right one, differs from the clicked one, and is the first right one; nothing is highlighted exactly when no option is right. |
| FillIn.Answers | js/quiz-functions.js:240-247 | The answers list has one trimmed answer per input, in order. |
| FillIn.WrongAnswers | js/quiz-system.js:216 | The wrong answers are exactly the answers that do not match ignoring case. There are none iff every blank matches. |
| FillIn.WrongAnswersOfOne | js/quiz-system.js:216 | A single answer is kept iff it does not match. |
| FillIn.WrongAnswersConcat | js/quiz-system.js:216 | The filter distributes over concatenation. With `WrongAnswersOfOne` this fixes the order and the multiplicity of the wrong answers. |
| FillIn.FeedbackMessage | js/quiz-system.js:213-231 | The message is the bare hint (or "") iff every blank matches. |
| FillIn.FeedbackShape | js/quiz-system.js:218-230 | With a wrong blank, the message starts with the singular prefix for one wrong blank and the plural prefix otherwise. It ends with the hint line when there is a hint. Without a hint it is just the prefix and the quoted answers. |
| FillIn.FeedbackMessageParts | js/quiz-system.js:213-231 | With some blank wrong, the message is the singular or plural prefix, then the quoted expected answers joined by ", ", then the hint line when there is a hint. |
| FillIn.FeedbackNamesEachWrongBlank | js/quiz-system.js:222-224 | Every wrong blank's expected answer appears in quotes in the message. |
| FillIn.Marked | js/quiz-system.js:148-157 | A checked input is disabled. It gets the class "correct" iff it matches, and otherwise the class "incorrect" and its expected answer revealed. Its value, answer, index, feedback and hint are kept. |
| FillIn.Checked | js/quiz-system.js:147-157 | On an unmarked input, "correct" is added iff the trimmed value equals the expected answer ignoring case. Otherwise "incorrect" is added and the answer is revealed. The input ends disabled. |
| FillIn.MarkBlanks | js/quiz-system.js:148-163 | Each input is marked by its own match result and nothing else changes. The result says whether every input matched. |
| FillIn.CheckAllBlanks | js/quiz-system.js:145-165 | The check is correct iff every trimmed answer matches ignoring case. Every input is checked in place; the message is the feedback for the answers read before the check. |
| FillIn.AcceptedAnswers | js/exercise-renderer.js:252-253 | The accepted answers are the expected answer followed by exactly the part's alternatives. |
| FillIn.VerdictOf | js/exercise-renderer.js:248-256 | The classifier is asked about the trimmed answer. The accepted list starts with the expected answer, followed by the alternatives of the part named by the input's index. |
| FillIn.Analyzed | js/exercise-renderer.js:258-275 | A verdict keeps the input's value, answer and part index. A correct verdict marks the input correct and leaves its disabled flag and reveal as they were: a correct blank is not locked. A wrong verdict marks it incorrect. With a retry allowed, that is all. Without one, the answer is revealed and the input disabled. |
| Renderer.KindOf | js/exercise-renderer.js:69-74 | A type is found iff it is a key of the table, and under its own key. |
| Renderer.KindOfTypeName | js/exercise-renderer.js:21-58 | Every listed type is found under its own key. |
| Renderer.ConfigFlags | js/exercise-renderer.js:21-58 | Exactly fill-in, short answer and ordering need a manual check; only matching counts pairs. |
| Renderer.RcCounts | js/exercise-renderer.js:305-323 | The counts come from a complete record, else from a complete nested record, else they are one question answered right iff the value is truthy. |
| Renderer.RcAllCorrect | js/exercise-renderer.js:334 | A complete record is all correct iff its right-answer count equals its question count. A single answer is all correct iff the value is truthy. |
| Renderer.RcPercent | js/exercise-renderer.js:335 | The percentage is 0 without questions and `RoundPercent(c, t)` otherwise. It is at most 100 for counts in range, and 100 when all are right. |
| Renderer.RcMessage | js/exercise-renderer.js:337-341 | The message starts "Respuestas correctas: " and ends "%)". It ends "(100%)" when every one of at least one question is right, and "(0%)" without questions. |
| Renderer.RcIsCorrect | js/exercise-renderer.js:100-108 | With a count of right answers, a pass is at least half right of `totalQuestions` or 1. Without one, a pass is `isCorrect === true`. A plain value never passes. |
| Renderer.AllCorrectPassesHalf | js/exercise-renderer.js:100-108 | A complete record with questions, all of them right, also passes the half-right test. |
| Renderer.CorrectnessNotionsDiffer | js/exercise-renderer.js:334 | The callback's pass and the aggregation's all-correct differ both ways: 1 of 2 passes but is not all correct; 0 of 0 is all correct but does not pass. |
| Renderer.PlainTrueIsCountedButNotCorrect | js/exercise-renderer.js:316-323 | A plain `true` counts as one right answer out of one, while the callback reports it as not correct and adds no points. |
| Renderer.ReadingScoreIncrement | js/exercise-renderer.js:136 | The increment is a positive right-answer count when there is one; otherwise 1 for a pass and 0 for a fail. |
| Renderer.CompleteRecordIncrementMatchesCounts | js/exercise-renderer.js:136 | For a complete record, the increment reported equals the number of `updateScore` calls made. |
| Renderer.CallbackCompletion | js/exercise-renderer.js:92-164 | Outside reading comprehension, the increment is 1 iff correct. Matching is correct iff complete and matched; fill-in iff it earned points. A boolean answer is taken as given, and a missing answer is wrong. |
| Renderer.CallbackIncrementAtMostOne | js/exercise-renderer.js:155-162 | Outside reading comprehension, one evaluation adds at most one point. |
| Renderer.Verdicts | js/exercise-renderer.js:247-256 | There is one classifier verdict per answer, in order, each against that part's accepted answers. |
| Renderer.RetryPoints | js/exercise-renderer.js:279-294 | The check returns at most one point, one exactly when every blank is correct, and none while a wrong blank may be retried. |
| Renderer.ExactClassifierAgreesWithPlainCheck | js/exercise-renderer.js:247-294 | With a classifier that accepts exactly the expected answer ignoring case and never offers a retry, the retry-aware check gives the point iff the quiz-system.js check accepts the answers. |
| Renderer.Finished | js/exercise-renderer.js:285-287 | On the complete path every input ends up disabled, with the answer revealed as the verdict decided. |
| Renderer.AnalyzeBlanks | js/exercise-renderer.js:247-276 | The marking loop applies each input's verdict in place and reports whether all were correct and whether some wrong blank may be retried. |
| Renderer.DisableBlanks | js/exercise-renderer.js:285-287 | Every input is disabled and nothing else changes. |
| Renderer.ExerciseContext.constructor | js/exercise-renderer.js:68-76 | A fresh context has no score calls, no next button shown, no pair count and no feedback. |
| Renderer.ExerciseContext.ShowNextButtonAfterAnswer | js/exercise-renderer.js:192-198 | The next button is shown and enabled when there is one; nothing else changes. |
| Renderer.ExerciseContext.RenderUnifiedExercise | js/exercise-renderer.js:68-89 | An unknown type changes nothing. A manual-check type disables the next button. Matching records the pair count. |
| Renderer.ExerciseContext.HandleExerciseResult | js/exercise-renderer.js:200-236 | A correct answer calls `updateScore` once. The verdict message is appended, the next button is shown and the check buttons are hidden. |
| Renderer.ExerciseContext.HandleFillInTheBlanksResult | js/exercise-renderer.js:240-296 | The points follow `RetryPoints`. While a blank may be retried, the inputs carry their verdicts, a retry prompt is shown and the next button is held back. Otherwise every input is finished and the feedback message is shown. |
| Renderer.ExerciseContext.HandleReadingComprehensionResult | js/exercise-renderer.js:301-353 | `updateScore` is called once per right answer. The message carries the counts, and the next button is shown. |
| Renderer.ExerciseContext.SingleAnswerCallback | js/exercise-renderer.js:122-162 | The reported completion is `CallbackCompletion`, and the score calls grow by its increment. The verdict message "¡Correcto!" or "Incorrecto. Intenta de nuevo." is appended. The next button is shown and enabled, and the check buttons are hidden, when there is a next button. Nothing else changes. |
| Renderer.ExerciseContext.MatchingCallback | js/exercise-renderer.js:109-162 | The same, with the completion `CallbackCompletion` gives for matching. |
| Renderer.ExerciseContext.FillInCallback | js/exercise-renderer.js:113-162 | The completion is correct iff every verdict is. While a blank may be retried, the inputs carry their verdicts and a retry prompt is appended. Otherwise the inputs are finished, the check buttons hidden and the feedback message appended. One `updateScore` call is made when the point was earned. The next button is always shown, and the pair count is kept. |
| Renderer.ExerciseContext.ReadingCallback | js/exercise-renderer.js:100-145 | The score calls grow by the right-answer count and the aggregation message is appended. The next button is shown, and nothing else changes. |
| Session.ViewOf | js/quiz-system.js:111-128 | Each known type picks its renderer, and any other or missing type picks multiple choice. |
| Session.Initial | js/quiz-system.js:5-10 | The page starts with no exercise, index 0 and score 0. |
| Session.ClearQuestionState | js/quiz-system.js:375-379 | The matching counters are cleared and nothing else changes. |
| Session.QuestionShown | js/quiz-system.js:101-129 | Showing question `qi` leaves index, score and the next button alone. It shows question `qi + 1` of the total with that question's renderer, and records the pair count for matching. |
| Session.ProgressOfShownQuestion | js/quiz-system.js:108 | A shown question's progress is at most 100%, and exactly 100% on the last question. |
| Session.ResultPercentage | js/quiz-system.js:258-259 | With questions, the results percentage is `RoundPercent(score, total)`: at most 100 for a score within the total, 100 for a full score and 0 for a zero score. |
| Session.ResultsFor | js/quiz-system.js:252-277 | The results screen carries the score, the question count, their rounded percentage and that percentage's performance. The next button is hidden, and nothing else changes. |
| Session.Next | js/quiz-system.js:240-247 | A hidden next button changes nothing. A click raises the index by one and keeps the score and the questions. |
| Session.NextAdvances | js/quiz-system.js:240-247 | Next then shows the following question, or after the last the results with the score and the question count. |
| Session.AnswerChosen | js/quiz-system.js:134-139 | On the live question of that kind, a right answer scores one point, and the question is used up with the next button shown. Otherwise nothing changes. |
| Session.FillInChecked | js/quiz-system.js:144-171 | The same for the fill-in check, scoring iff every blank matched. |
| Session.MatchingCompleted | js/quiz-system.js:176-185 | The corrected matching callback: only a completed, correct live board scores. A completed live board shows the next button; anything else changes nothing. |
| Session.MatchingCompletedAsWritten | js/quiz-system.js:176-185 | As written, every completion that reaches the callback scores and shows the next button, whatever is on screen. |
| Session.AnswerScoresAtMostOnce | js/quiz-system.js:134-195 | With one matching listener per board, an answer raises the score by at most one, only for a live question, and a used-up question ignores further answers. |
| Session.Retry | js/quiz-system.js:309-321 | Retry reshuffles the questions and sets index, score and the matched-pair count to 0, leaving the next button as it was. For a non-empty list it shows question 1 of the same count, unanswered. |
| Session.RetryKeepsQuestions | js/quiz-system.js:309-321 | Retry restarts on a permutation of the same questions with index and score 0. |
| Session.HomeState | js/quiz-system.js:326-330 | Going home drops the exercise, zeroes index, score and the matching counters, and shows the home screen. |
| Session.LoadedAsWritten | js/quiz-system.js:79-96 | As written, a load shuffles the new questions, hides the next button and shows question 1, or the error for an empty list. Index and score are left as they were. |
| Session.Loaded | js/quiz-system.js:79-96 | The corrected load starts at index 0 with score 0 on a permutation of the fetched questions, and shows question 1 with the next button hidden. An empty list shows the error. |
| Session.FetchFailed | js/quiz-system.js:92-95 | A failed fetch shows the error and changes nothing else. |
| Session.InitialInv | js/quiz-system.js:5-10 | The session invariant holds on the initial page. |
| Session.NextKeepsInv | js/quiz-system.js:240-247 | Next keeps the session invariant. |
| Session.EventKeepsInv | js/quiz-system.js:134-195 | With one matching listener per board, every answer callback keeps the session invariant. |
| Session.RetryKeepsInv | js/quiz-system.js:309-321 | Retry keeps the session invariant. |
| Session.GoHomeKeepsInv | js/quiz-system.js:326-330 | Going home keeps the session invariant. |
| Session.LoadExerciseKeepsInv | js/quiz-system.js:79-96 | The corrected load keeps the session invariant. |
| Session.LoadFailedKeepsInv | js/quiz-system.js:92-95 | A failed load keeps the session invariant. |
| Session.ResultsWithinBounds | js/quiz-system.js:252-277 | With the corrected load and one matching listener per board, the results percentage is at most 100 under the invariant. It is exactly 100, level ¡Excelente!, when every question scored. |
| Session.StaleCountersAfterReload | js/quiz-system.js:79-96 | As written, loading mid-session keeps index and score. A two-question exercise then ends at 4 of 2, 200%, breaking the invariant. |
| Session.TwoMatchingLoaded | js/quiz-system.js:79-96 | Loading two matching questions shows the first board, question 1 of 2, with the counters at zero and the invariant in force. |
| Session.CompletionsAsWrittenCount | js/quiz-system.js:176-185 | As written, each of `n` completions adds a point. |
| Session.AsWrittenTwoBoards | js/quiz-system.js:176-185 | As written, one completion on the first board and `n` on the second end at 1 + n of 2. |
| Session.StaleMatchingListenersInflateScore | js/quiz-system.js:176-185 | With the completions the page dispatch produces for dog/cat then sun/moon, the callback as written ends the exercise at 4 of 2, 200%, outside the invariant. |
| Session.CorrectedTwoBoards | js/quiz-system.js:176-185 | One completion per board reaching the corrected callback gives 2 of 2, 100%, within the invariant. |
| Session.OneListenerPerBoardScoresOnce | js/quiz-system.js:176-185 | With only the live board's handler listening, the same two boards end at 2 of 2, 100%, within the invariant. |
| Session.QuizSession.constructor | js/quiz-system.js:5-10 | The globals start as the initial page, under the invariant. |
| Session.QuizSession.ResetQuestionState | js/quiz-system.js:375-379 | The in-place reset is `ClearQuestionState`. |
| Session.QuizSession.ShowQuestion | js/quiz-system.js:101-129 | The in-place update is `QuestionShown`. |
| Session.QuizSession.NextQuestion | js/quiz-system.js:240-247 | The in-place update is `Next`, and the invariant is kept. |
| Session.QuizSession.ShowResults | js/quiz-system.js:252-277 | The in-place update is `ResultsFor`. |
| Session.QuizSession.AnswerMultipleChoice | js/quiz-system.js:134-139 | The click outcome is `AnswerClick`, and the score and next button change as `AnswerChosen` says, keeping the invariant. |
| Session.QuizSession.AnswerReading | js/quiz-system.js:190-195 | The same for a reading-comprehension question. |
| Session.QuizSession.CheckBlanks | js/quiz-system.js:144-171 | On a live fill-in question, every input is checked and the feedback message is returned. One point is scored iff every blank matched, and the invariant is kept. |
| Session.QuizSession.RecordBlanksChecked | js/quiz-system.js:160-169 | The end of the fill-in callback, in place, is `FillInChecked`: on a live fill-in question a point iff every blank matched, then the next button. The invariant is kept. |
| Session.QuizSession.MatchingCallback | js/quiz-system.js:176-185 | The corrected callback, with one listener per board: only a completed live board scores and shows the next button, and the invariant is kept. |
| Session.QuizSession.RetryExercise | js/quiz-system.js:309-321 | The in-place retry, which shuffles an array copy, is `Retry`, and the invariant is kept. |
| Session.QuizSession.GoHome | js/quiz-system.js:326-330 | The in-place update is `HomeState`, and the invariant is kept. |
| Session.QuizSession.LoadExercise | js/quiz-system.js:79-96 | The in-place load is the corrected `Loaded`, and the invariant is kept. |
| Session.QuizSession.LoadFailed | js/quiz-system.js:92-95 | The in-place update is `FetchFailed`, and the invariant is kept. |
| LegacyQuiz.Initial | js/quiz_script.js:1-3 | The page starts with no quiz, index 0, score 0, no score display and the next button hidden. |
| LegacyQuiz.ScoreMessage | js/quiz_script.js:104 | The score text starts with "¡Has completado el quiz!<br>Tu puntaje es: " and ends with a full stop. |
| LegacyQuiz.ScoreMessageInjective | js/quiz_script.js:104 | The score text names both the score and the question count: two different results never print the same text. |
| LegacyQuiz.QuestionShown | js/quiz_script.js:31-55 | An in-range question is shown with live buttons and the next button hidden. Otherwise nothing changes. |
| LegacyQuiz.FeedbackFor | js/quiz_script.js:57-98 | The verdict text is ¡Correcto! iff the option is right. A wrong click marks the clicked button incorrect and the first right option correct, never the same button. The rationale and hint lines carry their labels. |
| LegacyQuiz.Clicked | js/quiz_script.js:57-98 | A click on live buttons adds one point iff the option is right, disables the buttons and shows next; nothing else changes. A click on dead buttons changes nothing. |
| LegacyQuiz.ClickScoresOnce | js/quiz_script.js:63-87 | A click adds one point exactly when the option is right and the buttons were live. It disables the buttons, so a second click changes nothing. |
| LegacyQuiz.ScoreShown | js/quiz_script.js:100-105 | Showing the score hides the quiz element and the next button, and displays `ScoreMessage` for the score and the question count; nothing else changes. |
| LegacyQuiz.Next | js/quiz_script.js:107-114 | A hidden next button changes nothing. A click raises the index by one and keeps the score and the quiz. |
| LegacyQuiz.LoadedAsWritten | js/quiz_script.js:9-29 | As written, a load sets the quiz, index 0 and score 0 and shows question 0 with live buttons and next hidden. An empty list shows the error and leaves next as it was. A hidden quiz element and the score display are left as they were. |
| LegacyQuiz.Loaded | js/quiz_script.js:9-29 | The corrected load starts at index 0 with score 0, with the quiz visible, no score display and the next button hidden. It shows question 0 with live buttons, or the error for an empty list. |
| LegacyQuiz.FetchFailed | js/quiz_script.js:25-28 | A failed load shows the error and changes nothing else. |
| LegacyQuiz.InitialInv | js/quiz_script.js:1-3 | The page invariant holds at the start. |
| LegacyQuiz.StepKeepsInv | js/quiz_script.js:9-114 | With the corrected load, every load, click and next keeps the page invariant: index in range, score at most the questions passed plus an answered current one, next only after an answer, and the score text only after the last question. |
| LegacyQuiz.RunKeepsInv | js/quiz_script.js:9-114 | With the corrected load, any sequence of player actions keeps the page invariant. |
| LegacyQuiz.ScoreAtMostQuestions | js/quiz_script.js:100-105 | With the corrected load, whatever was played, a displayed score is at most the number of questions, and the text names that score and count. |
| LegacyQuiz.NextAdvances | js/quiz_script.js:107-114 | Next raises the index by one. It then shows that question with live buttons, or after the last the score text. |
| LegacyQuiz.HiddenAfterReload | js/quiz_script.js:9-29 | As written, loading after the score was shown leaves the quiz hidden, unanswerable and under the old score text. The corrected load is answerable. |
| LegacyQuiz.EmptyReloadKeepsNext | js/quiz_script.js:22-27 | As written, loading an empty quiz after an answer leaves next visible. Clicking it reports 0 of 0 with the index past the end, breaking the invariant. After the corrected load, next does nothing. |
| LegacyQuiz.QuizPage.constructor | js/quiz_script.js:1-3 | The globals start as the initial page, under the invariant. |
| LegacyQuiz.QuizPage.ShowQuestion | js/quiz_script.js:31-55 | The in-place update is `QuestionShown`. |
| LegacyQuiz.QuizPage.HandleAnswerClick | js/quiz_script.js:57-98 | The feedback is `FeedbackFor` the current question, the update is `Clicked`, and the invariant is kept. |
| LegacyQuiz.QuizPage.ShowScore | js/quiz_script.js:100-105 | The in-place update is `ScoreShown`. |
| LegacyQuiz.QuizPage.NextClicked | js/quiz_script.js:107-114 | The in-place update is `Next`, and the invariant is kept. |
| LegacyQuiz.QuizPage.LoadQuiz | js/quiz_script.js:9-29 | The in-place load is the corrected `Loaded`, and the invariant is kept. |
| LegacyQuiz.QuizPage.LoadQuizFailed | js/quiz_script.js:25-28 | The in-place update is `FetchFailed`, and the invariant is kept. |

## Left out

- Rendering is not modelled: the DOM, CSS classes beyond the marks the grading sets, ARIA attributes, focus, and the title and description texts. The page is abstracted to the screen, the question card, the next button and the score display.
- The 1500 ms timer set after a wrong matching pair (quiz-functions.js:386-391) is not modelled. It only touches CSS classes and ARIA attributes, and it never clears the wrong pair's marks. It reads `selectedLeft` and `selectedRight` after the handler has set them to null, so it throws a TypeError, or strips the "selected" class from a newer selection.
- Matching.Step: a click on a position past the end of a column is ignored. On the page every click reaches a real button, so this case only makes `Step` total.
- Network and storage I/O are inputs. Each `fetch` and JSON parse either succeeds with a list of questions or fails.
- URL handling is left out: `updateURL`, `getExerciseFromURL`, `initializeFromURL` and `handleBrowserNavigation`. The browser's back button enters the model only as a call to load an exercise.
- Renderer.KindOf: keys inherited by every JS object, such as "constructor", are found by `EXERCISE_CONFIG[exerciseType]` but give no render function, so `renderUnifiedExercise` returns without changing anything. The model reports them as unknown, which changes the context in the same (null) way.
- `shareResults` (clipboard and `navigator.share`) is not part of this model.
- app.js, feedback-manager.js, grammar-system.js, theme-manager.js and ui-state-manager.js are not part of this model. They hold the UI helpers (`manageUIState`, `showUnifiedFeedback`, `showRetryFeedback`) and the body of `analyzeUserAnswer`.
- FillIn.VerdictOf: `analyzeUserAnswer` is an arbitrary `Classifier` parameter. Its own behaviour (fuzzy matching, confidence) is not modelled.
- Results.RoundPercent: floating point is not modelled. `Math.round(x / t * 100)` is computed exactly on integers. It can differ from IEEE rounding only when the float quotient lands on a rounding boundary.
- Session.ResultPercentage: an exercise with no questions gives 0, where the page computes NaN.
- Text.ToLower: only ASCII letters are lowered. `toLowerCase` on other Unicode letters is not modelled.
- Renderer.RcCounts: a `null` reading result, on which the page throws, is not a value of `RcResult`.
- Renderer.ExerciseContext.RenderUnifiedExercise: the lookup of the render function on `window`, and the call to it, are not modelled. The model stops where the render function would be called.
- Helpers declared twice are assumed to resolve to the quiz-system.js and quiz-functions.js versions, which the model follows. Called with the quiz-system.js arguments, the ui-state-manager.js versions of the first three below do nothing, since they return when their container argument is missing.
- `showNextButton` (quiz-system.js:474 and ui-state-manager.js:141): the quiz-system.js version takes no argument and shows the page's next button.
- `hideCheckButton` (quiz-system.js:483 and ui-state-manager.js:156): the quiz-system.js version hides the container's check button.
- `showError(message)` (quiz-system.js:493 and ui-state-manager.js:330): the quiz-system.js version replaces the container's content with the message. Session.FetchFailed's "shows the error" relies on it.
- `hideProgressBar` (quiz-functions.js:774 and ui-state-manager.js:134): the quiz-functions.js version hides the progress container.
- Session.QuestionShown: for an index past the end, the handler throws after resetting the question state. The model keeps that reset and nothing more.
- Session.Next: after going home, a click on next raises the index and then throws on the missing exercise. The model keeps the raised index and nothing more.
- LegacyQuiz.FeedbackFor: an option without a rationale, or a question without a hint, prints "undefined" on the page (quiz_script.js:91). The model prints whatever strings the option and the question carry.
- Renderer.ExerciseContext.ReadingCallback and Renderer.ExerciseContext.HandleReadingComprehensionResult are modelled as if the page reached them. As written it does not: the renderer passes the question index as the third argument and `unifiedCallback` as a fourth (exercise-renderer.js:175-176), while `renderReadingComprehension` takes three parameters (quiz-functions.js:409). An answer click then calls the index number (quiz-functions.js:515) and throws a TypeError before `unifiedCallback` runs. Had it run, it would receive a boolean and a selected index, never a record of counts.
- LegacyQuiz.LoadedAsWritten: a quiz file without a `questions` array is not modelled. Every loaded quiz has a list of questions, possibly empty.
- LegacyQuiz.Initial: the next button's initial display comes from the page's stylesheet. It is assumed hidden.
- The `text1 || left` and `text2 || right` fallbacks of the matching pairs are resolved before the model. A `Matching.Pair` carries its left and right values.

## Findings

| source | as written | input that shows it | evidently intended | confidence | as-written member | corrected member |
|---|---|---|---|---|---|---|
| js/quiz-system.js:79-96 | `loadExercise` replaces the questions but keeps `currentQuestionIndex` and `score`. During an exercise the selector is hidden (quiz-system.js:405-407), but `popstate` reloads the exercise named in the URL without going home (quiz-system.js:67-69, 539-549). | From the home screen, a load of exercise A fails, so the selector stays and the history holds `?exercise=A`. Loading B pushes `?exercise=B`. Three right answers into B (five questions), the back button reloads A (two questions). Answer its first question right and press next: the results show 4 of 2, 200%. | A newly loaded exercise starts at index 0 with score 0, as `retryExercise` and `goHome` do. | medium, not executed | Session.StaleCountersAfterReload (on Session.LoadedAsWritten) | Session.Loaded, with Session.LoadExerciseKeepsInv |
| js/quiz-system.js:176-185 | Each matching question installs a click handler on the quiz container itself (quiz-functions.js:345). `clearContainer` removes the children, not the listeners (quiz-functions.js:42-46). A finished board's handler keeps judging later clicks; its count still equals its pair count, so every pair it evaluates calls `onComplete(true, true)` (quiz-functions.js:398-401), which the callback scores unguarded. A handler also keeps the button it had selected, and judges it against the next click on a later board (quiz-functions.js:352-374). | Two matching questions, dog/perro, cat/gato and then sun/sol, moon/luna, each matched in order. The second board fires three completions, two of them stale, and the results show 4 of 2, 200%. Or: select "dog" on the dog/cat board, move on to a cat/dog board and click "perro": the earlier handler accepts dog/perro and disables the live "perro", which the live board can then never match. | One listener per board: a board's handler stops listening once the board is replaced, so each board completes once. A guard on the callback alone is not enough, because a stale completion can arrive first, at the new board's first pair. | medium, not executed | Session.StaleMatchingListenersInflateScore (on Matching.TwoMatchingQuestions, Matching.StaleHandlerCompletesAgain and Session.MatchingCompletedAsWritten); Matching.HeldSelectionMatchesOnNextBoard | Session.OneListenerPerBoardScoresOnce and Session.MatchingCompleted, with Matching.RunCompletesAtMostOnce and Matching.PageRunOne (and, for the held button, the live-handler clause of Matching.HeldSelectionMatchesOnNextBoard) |
| js/quiz_script.js:9-29 | `showScore` hides the quiz element and shows the score (lines 100-105). `loadQuiz` never undoes either. | Finish a one-question quiz, then load a quiz again. Its question is rendered inside the hidden element, so it cannot be answered, and the old score stays on display. | Loading a quiz shows the quiz element again and hides the score display. | medium, not executed | LegacyQuiz.HiddenAfterReload (on LegacyQuiz.LoadedAsWritten) | LegacyQuiz.Loaded, with LegacyQuiz.StepKeepsInv |
| js/quiz_script.js:22-27 | With an empty question list, `showQuestion(0)` throws before it hides the next button. | Answer a question, so next is displayed, then load a quiz with no questions and press next. The page shows "0 de 0" with the index at 1. | Loading a quiz hides the next button whatever the list holds. | medium, not executed | LegacyQuiz.EmptyReloadKeepsNext (on LegacyQuiz.LoadedAsWritten) | LegacyQuiz.Loaded, with LegacyQuiz.StepKeepsInv |
