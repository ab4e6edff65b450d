# Quiz Whiz: a Dafny model of the quiz editor, the quiz player and the dashboard search

Quiz Whiz is a small React application with three pages:

- **Create Quiz** edits a draft. A draft is a list of questions. Each question is single- or
  multiple-choice and owns a list of answer options, each flagged correct or not. "Save Quiz"
  runs four checks in a fixed order.
- **Preview Quiz** lets a user take one of three built-in quizzes. It moves through the
  questions one at a time, records answers, scores them and shows a percentage and a
  feedback line.
- **Dashboard** lists quiz summaries. It narrows the list to the titles that contain the
  search term, ignoring letter case.

Every React state update is modelled as a pure function from the old state to the new one.
Toasts that refuse an edit are modelled as a `Notice` returned next to the new question list.
The JavaScript details the pages rely on are written out explicitly:

- `trim` with the ECMAScript white-space set;
- ASCII `toLowerCase`;
- `includes` as substring search;
- `${n}` decimal formatting of generated ids;
- truthiness (`""` and `undefined` are falsy, arrays are truthy);
- strict equality, including `undefined === undefined`;
- `Math.round` as round-half-up.

Modules:

| file | module | what it holds |
|---|---|---|
| collections.dfy | `Collections` | `Maybe`, `Map`, `Filter`, `Any`, `CountWhere`, subsequences, distinctness |
| text.dfy | `Text` | `trim`, `toLowerCase`, `includes` and decimal formatting of naturals |
| quiz_model.dfy | `QuizModel` | questions, options, quizzes and what a well-formed quiz is |
| create_quiz.dfy | `CreateQuiz` | the editor's operations and the save checks |
| preview_session.dfy | `PreviewSession` | answers, navigation and the page's controls |
| preview_scoring.dfy | `PreviewScoring` | grading, the score loop, the percentage and the feedback |
| quiz_catalogue.dfy | `QuizCatalogue` | the three built-in quizzes and worked attempts |
| dashboard.dfy | `Dashboard` | the sample list and the search filter |

## Model

| member | source | states |
|---|---|---|
| CreateQuiz.AddQuestion | src/pages/CreateQuiz.tsx:44-58 | appends exactly one question and leaves the earlier ones untouched; the new question is single-choice with empty text, is numbered after the list length (`q<n+1>`) and has two empty incorrect options `<id>-o1`, `<id>-o2` |
| CreateQuiz.InitialIdsAreSequential | src/pages/CreateQuiz.tsx:32-45 | the initial draft's question is named `q1`, the id `addQuestion` gives the first question |
| CreateQuiz.AppendOnlyIdsAreDistinct | src/pages/CreateQuiz.tsx:32-58 | on a list whose ids are q1..qn, adding a question gives q1..qn+1, which are pairwise distinct; with `InitialIdsAreSequential` this covers every list built from the initial draft by adding questions alone |
| CreateQuiz.QuestionIdInjective | src/pages/CreateQuiz.tsx:45 | different question numbers never produce the same generated id |
| CreateQuiz.RemoveQuestion | src/pages/CreateQuiz.tsx:60-66 | with one question or fewer the list is kept and the "at least one question" toast is raised; otherwise exactly the questions with another id are kept, in order, and every question carrying the id goes |
| CreateQuiz.RemoveQuestionWithDistinctIds | src/pages/CreateQuiz.tsx:60-66 | when ids are distinct, removing a present question shortens a list of two or more by one, and never below one question |
| CreateQuiz.RemoveAbsentQuestion | src/pages/CreateQuiz.tsx:60-66 | removing an id no question carries changes nothing |
| CreateQuiz.AddThenRemoveQuestion | src/pages/CreateQuiz.tsx:44-66 | on a list built by adding questions alone, removing the question just added restores the list |
| CreateQuiz.GeneratedQuestionIdCanCollide | src/pages/CreateQuiz.tsx:44-66 | after a removal the generated id can already be in use: add, remove q1, add gives two questions both named q2, and removing q2 then leaves no question at all |
| CreateQuiz.UpdateQuestionText | src/pages/CreateQuiz.tsx:68-72 | only the text of the questions with the id changes; ids, types, options, order and count are kept |
| CreateQuiz.UpdateQuestionType | src/pages/CreateQuiz.tsx:74-78 | only the type of the questions with the id changes; the correct flags are kept even when switching to single choice |
| CreateQuiz.TypeChangeKeepsSeveralCorrect | src/pages/CreateQuiz.tsx:74-124 | marking two options correct in multiple-choice mode and switching back to single choice leaves a single-choice question with two correct options |
| CreateQuiz.UpdateOptionText | src/pages/CreateQuiz.tsx:80-93 | only the text of option `oid` inside the questions `qid` changes; every other question, option, id and flag is kept |
| CreateQuiz.UpdateOptionCorrect | src/pages/CreateQuiz.tsx:95-124 | marking an option correct in a single-choice question clears every other flag of that question; in every other case only the one flag is written; other questions are untouched |
| CreateQuiz.SingleChoiceSelectionIsExclusive | src/pages/CreateQuiz.tsx:104-113 | after marking an option correct in a single-choice question with distinct option ids, at most one option is correct, and one is exactly when the marked id exists |
| CreateQuiz.AddOption | src/pages/CreateQuiz.tsx:126-138 | appends one empty incorrect option to the questions `qid`; its id is derived from the option count (`<qid>-o<n+1>`), not from the ids in use; other questions are untouched |
| CreateQuiz.RemoveOption | src/pages/CreateQuiz.tsx:140-157 | a question `qid` with at most two options keeps them, and then (only then) the "at least two options" toast is raised; any other question `qid` keeps exactly its options with another id, in order |
| CreateQuiz.RemoveOptionWithDistinctIds | src/pages/CreateQuiz.tsx:140-157 | with distinct option ids, removing a present option from a question with more than two leaves one fewer and never fewer than two |
| CreateQuiz.AddThenRemoveOption | src/pages/CreateQuiz.tsx:126-157 | on a question with at least two options, when the generated option id is fresh, removing the option just added restores the question's options |
| CreateQuiz.AddThenRemoveOnFewOptionsKeepsIt | src/pages/CreateQuiz.tsx:126-157 | on a question with at most one option, removing the option just added is refused with the "at least two options" notice and the new option stays |
| CreateQuiz.GeneratedOptionIdCanCollide | src/pages/CreateQuiz.tsx:126-157 | adding an option, removing o2 and adding again yields two options named q1-o3; removing q1-o3 then leaves a single option |
| CreateQuiz.HandleSave | src/pages/CreateQuiz.tsx:159-193 | the draft is saved exactly when the title, every question text and every option text are non-blank and every question has a correct option; otherwise the first failing check is reported, and each error is reported exactly when the earlier checks pass and its own fails |
| CreateQuiz.SaveAcceptsSeveralCorrectInSingleChoice | src/pages/CreateQuiz.tsx:172-179 | saving does not check single-choice exclusivity: a single-choice question with two correct options is saved |
| QuizCatalogue.LoadQuiz | src/pages/PreviewQuiz.tsx:13-124 | a quiz is found exactly for the ids "1", "2" and "3", and it is the catalogue's entry; a missing or other id finds none |
| QuizCatalogue.CatalogueWellFormed | src/pages/PreviewQuiz.tsx:13-105 | every built-in quiz has questions with unique ids, at least two options each, unique option ids, a correct option, and exactly one correct option when single-choice |
| PreviewSession.HandleSingleAnswer | src/pages/PreviewQuiz.tsx:129-134 | the question's answer becomes the chosen option, replacing any earlier one; every other answer is kept |
| PreviewSession.SingleAnswerIdempotent | src/pages/PreviewQuiz.tsx:129-134 | choosing the same option twice is the same as choosing it once |
| PreviewSession.HandleMultipleAnswer | src/pages/PreviewQuiz.tsx:136-150 | ticking appends the option to the ticked list (duplicates included); unticking keeps every other ticked id, in order and with its repetitions, and drops all copies of this one; other answers are kept |
| PreviewSession.EmptyStoredIdReadsAsNoTicks | src/pages/PreviewQuiz.tsx:136-150 | a stored empty string is falsy, so it falls back to `[]` and is read as no ticked ids: ticking gives just the new id, unticking gives the empty list |
| PreviewSession.TickThenUntick | src/pages/PreviewQuiz.tsx:136-150 | ticking an unticked option and unticking it again restores the ticked list |
| PreviewSession.UntickAbsentIsNoOp | src/pages/PreviewQuiz.tsx:144-148 | unticking an option that is not ticked leaves the ticked list as it was |
| PreviewSession.TickingTwiceDuplicates | src/pages/PreviewQuiz.tsx:139-143 | ticking the same option twice records it twice |
| PreviewSession.IsQuestionAnswered | src/pages/PreviewQuiz.tsx:198-204 | an unanswered question is not answered; a stored option id counts exactly when it is non-empty; a multiple-choice tick list counts exactly when it is non-empty; under a single-choice question any stored list counts, since arrays are truthy |
| PreviewSession.AnsweringMakesAnswered | src/pages/PreviewQuiz.tsx:129-150 | choosing a non-empty option, or ticking any option, makes the question answered |
| PreviewSession.HandleNext | src/pages/PreviewQuiz.tsx:184-190 | moves to the next question while one remains, otherwise shows the results; the answers are kept and the index stays in range |
| PreviewSession.HandlePrevious | src/pages/PreviewQuiz.tsx:192-196 | moves back one question, never before the first; answers and the results flag are kept |
| PreviewSession.ReviewAnswers | src/pages/PreviewQuiz.tsx:253 | "Review Answers" hides the results and keeps the position and the answers |
| PreviewSession.PressNext | src/pages/PreviewQuiz.tsx:357-360 | "Next"/"Finish" does nothing until the shown question is answered, then acts as `handleNext`; the index stays on a question |
| PreviewSession.PressPrevious | src/pages/PreviewQuiz.tsx:348-351 | "Previous" does nothing on the first question and otherwise moves back one, keeping the answers |
| PreviewSession.NextThenPrevious | src/pages/PreviewQuiz.tsx:184-196 | "Previous" undoes a "Next" that moved to another question |
| PreviewSession.ChooseOption | src/pages/PreviewQuiz.tsx:292-297 | the radio group of a single-choice question records the chosen option for the shown question |
| PreviewSession.ToggleOption | src/pages/PreviewQuiz.tsx:314-333 | a checkbox of a multiple-choice question ticks or unticks its option for the shown question, whose stored answer is never a single option id |
| PreviewSession.StartIsValid | src/pages/PreviewQuiz.tsx:110-112 | the page starts on the first question, with no answers and no results, in a valid session |
| PreviewSession.ControlsPreserveValidity | src/pages/PreviewQuiz.tsx:253-359 | every control keeps the index on a question and every stored answer shaped like its question's type |
| PreviewScoring.FirstCorrectId | src/pages/PreviewQuiz.tsx:158 | yields no id exactly when no option is correct, and otherwise the id of the first correct option |
| PreviewScoring.CorrectIds | src/pages/PreviewQuiz.tsx:165 | holds exactly the ids of the correct options, one entry per correct option |
| PreviewScoring.CorrectIdsAreFilteredIds | src/pages/PreviewQuiz.tsx:165 | the correct ids are the correct options, filtered in option order with repetitions, each mapped to its id |
| PreviewScoring.CorrectIdsDistinct | src/pages/PreviewQuiz.tsx:165 | distinct option ids give distinct correct ids |
| PreviewScoring.SingleMatches | src/pages/PreviewQuiz.tsx:158-159 | under strict equality: an unanswered question matches exactly when no option is correct (`undefined === undefined`); a stored array never matches; a stored id matches exactly when it is the first correct option's id |
| PreviewScoring.ExactMatch | src/pages/PreviewQuiz.tsx:168-171 | a selection with the same elements and multiplicities as the correct ids passes the length-and-`every` test |
| PreviewScoring.MultipleMatches | src/pages/PreviewQuiz.tsx:164-171 | an unanswered question, or one holding `""`, matches exactly when no option is correct; against distinct correct ids a stored list matches exactly when it is a permutation of them |
| PreviewScoring.StringUnderMultipleChoiceCanScore | src/pages/PreviewQuiz.tsx:164-171 | a string stored under a multiple-choice question is compared by `.length` and substring `.includes`, so the text "ab" scores against the correct ids "a" and "b" |
| PreviewScoring.IsQuestionCorrect | src/pages/PreviewQuiz.tsx:156-174 | an unanswered question of either type is scored exactly when it has no correct option; a list stored under a single-choice question is never scored |
| PreviewScoring.SingleCorrectIffChosen | src/pages/PreviewQuiz.tsx:156-161 | a single-choice question with exactly one correct option is scored exactly when that option was chosen |
| PreviewScoring.MultipleCorrectIffPermutation | src/pages/PreviewQuiz.tsx:162-173 | with distinct option ids, a multiple-choice tick list is scored exactly when it is a permutation of the correct ids |
| PreviewScoring.MatchIsPermutation | src/pages/PreviewQuiz.tsx:168-171 | against distinct correct ids, a selection passing the exact-match test is a permutation of them |
| PreviewScoring.SelectionOrderIrrelevant | src/pages/PreviewQuiz.tsx:168-171 | reordering a selection never changes whether it matches |
| PreviewScoring.DuplicateSelectionNeverMatches | src/pages/PreviewQuiz.tsx:168-171 | a selection holding some id twice never matches distinct correct ids |
| PreviewScoring.CorrectCount | src/pages/PreviewQuiz.tsx:152-175 | the number of questions scored never exceeds the number of questions |
| PreviewScoring.AllCorrectCount | src/pages/PreviewQuiz.tsx:152-175 | when every question is scored, the count is the number of questions |
| PreviewScoring.NoneCorrectCount | src/pages/PreviewQuiz.tsx:152-175 | when no question is scored, the count is zero |
| PreviewScoring.RoundedPercent | src/pages/PreviewQuiz.tsx:180 | the percentage is score/total·100 rounded to the nearest integer, halves up; it is at most 100 for a valid score, exactly 100 for a full score and 0 for none |
| PreviewScoring.CalculateScore | src/pages/PreviewQuiz.tsx:152-182 | the score is the number of questions scored, the total is the number of questions, the score never exceeds the total, and the percentage is their rounded ratio, at most 100 |
| PreviewScoring.PercentageExtremes | src/pages/PreviewQuiz.tsx:152-182 | all questions right gives 100 percent and none right gives 0 percent |
| PreviewScoring.FeedbackFor | src/pages/PreviewQuiz.tsx:239-243 | "Excellent work!" exactly from 80 percent, "Good job!" exactly from 60 up to 79, "Keep practicing!" exactly below 60 |
| QuizCatalogue.ChoosingTheCorrectOptionScores | src/pages/PreviewQuiz.tsx:14-27 | in "Basic Mathematics", choosing "4" for 2 + 2 is scored and choosing "3" is not |
| QuizCatalogue.TickingTheCorrectSetScores | src/pages/PreviewQuiz.tsx:28-39 | ticking 7 and then 2 for the primes is scored; ticking 2 and 4, or 2 twice, is not |
| QuizCatalogue.NextWaitsForAnAnswer | src/pages/PreviewQuiz.tsx:357-360 | on the first question "Next" does nothing until an option is chosen, and then moves to the second question |
| QuizCatalogue.PerfectAttempt | src/pages/PreviewQuiz.tsx:152-243 | both right in "Basic Mathematics" scores 2, 100 percent, "Excellent work!" |
| QuizCatalogue.HalfRightAttempt | src/pages/PreviewQuiz.tsx:152-243 | only the first right scores 1, 50 percent, "Keep practicing!" |
| Dashboard.FilteredQuizzes | src/pages/Dashboard.tsx:52-54 | the shown quizzes are in list order, all contain the term, every quiz whose title contains the term is shown (case-insensitive), and their number is the number of matching entries |
| Dashboard.EmptyTermKeepsAll | src/pages/Dashboard.tsx:50-54 | an empty search box shows every quiz, in order |
| Dashboard.SearchIgnoresTermCase | src/pages/Dashboard.tsx:52-54 | typing the term in any letter case shows the same quizzes as typing it in lower case |
| Dashboard.SingleMatchShownAlone | src/pages/Dashboard.tsx:52-54 | when exactly one title contains the term, that quiz alone is shown |
| Dashboard.GeographyContainsGeo | src/pages/Dashboard.tsx:33-54 | the sample title "World Geography" matches the term "geo" |
| Dashboard.LetterMissingFromTitle | src/pages/Dashboard.tsx:52-54 | a title that lacks both cases of some letter of the term, whichever case the term writes it in, does not match |
| Dashboard.NoQuizzesFoundIff | src/pages/Dashboard.tsx:145 | "No quizzes found" shows exactly when the term is non-empty and no title contains it |

## Left out

- Rendering, React hooks, routing and navigation (`navigate("/")`) are not modelled. The pages'
  state and event handlers are modelled as functions.
- Toast texts and the success toast of a save are not modelled. The refusing toasts of the editor
  are the `Notice` values `AtLeastOneQuestion` and `AtLeastTwoOptions`. The save checks are the
  `ValidationError` values, in the order the page runs them.
- The quiz description is held in the editor's state but is never checked or used, so the
  model does not carry it. The title is modelled only as the argument of the save checks.
- src/components/Sidebar.tsx, src/components/Navbar.tsx and src/layouts/MainLayout.tsx hold no
  quiz logic and are not modelled.
- Lengths count Unicode scalar values, because a Dafny string is a sequence of them. JavaScript's
  `.length` counts UTF-16 code units. The two differ only for characters outside the Basic
  Multilingual Plane. This affects `StoredLength` and the `.length` test on a string in
  `MultipleMatches`.
- The progress bar of the player (src/pages/PreviewQuiz.tsx:127) is floating-point display
  only and is not modelled.
- The "Updated" date of a dashboard card (src/pages/Dashboard.tsx:134) is browser date
  formatting and is not modelled. The card's question count and category are copied into
  `SampleQuizzes` but play no part in any operation.
- The dashboard's quiz list never changes after mount, so the model takes it as a parameter.
- Dashboard.FilteredQuizzes: `toLowerCase` is modelled for ASCII letters only. Full Unicode case
  mapping, which can change a string's length, is not.
- PreviewScoring.RoundedPercent: the page computes `Math.round((score / total) * 100)` in
  floating point. The model rounds the exact ratio, halves up. The two can differ only when a
  floating-point error crosses a .5 boundary.
- PreviewScoring.CalculateScore: requires at least one question. With no questions the page
  divides 0 by 0 (NaN), but it has already failed while showing the first question, so no
  score is ever computed for an empty quiz.
- PreviewSession.HandleMultipleAnswer: requires that no non-empty single option id is stored
  under the question. The page casts whatever is stored there to an array. A non-empty string
  stored there would be spread into characters on ticking and would throw on unticking. An empty
  string is falsy, so `|| []` reads it as no ticked ids, and the model does the same. `ToggleOption` and
  `ControlsPreserveValidity` show that the page's own controls never reach that state.
- PreviewSession.HandleNext: has no guard of its own, exactly as in the page. The "answered"
  guard sits on the button and is modelled by `PressNext`.
- QuizCatalogue.LoadQuiz: the page indexes a plain object, so ids naming inherited members
  (such as "toString") would find a non-quiz value. The model treats every id other than
  "1", "2" and "3" as not found.
