/**
 The fixed catalogue the "Preview Quiz" page reads its quizzes from, keyed by
 the quiz id in the URL, and worked examples of taking its first quiz.
 */
module QuizCatalogue {
  import opened Collections
  import opened QuizModel
  import opened PreviewSession
  import opened PreviewScoring

  const BasicMathematics: Quiz := Quiz(
    "Basic Mathematics",
    "Test your math knowledge with these basic questions",
    [ Question("q1", "What is 2 + 2?", SingleChoice,
        [ AnswerOption("q1-o1", "3", false),
          AnswerOption("q1-o2", "4", true),
          AnswerOption("q1-o3", "5", false) ]),
      Question("q2", "Which of these are prime numbers?", MultipleChoice,
        [ AnswerOption("q2-o1", "2", true),
          AnswerOption("q2-o2", "4", false),
          AnswerOption("q2-o3", "7", true),
          AnswerOption("q2-o4", "9", false) ]) ])

  const WorldGeography: Quiz := Quiz(
    "World Geography",
    "Test your knowledge of world geography",
    [ Question("q1", "What is the capital of France?", SingleChoice,
        [ AnswerOption("q1-o1", "London", false),
          AnswerOption("q1-o2", "Berlin", false),
          AnswerOption("q1-o3", "Paris", true) ]),
      Question("q2", "Which of these countries are in Europe?", MultipleChoice,
        [ AnswerOption("q2-o1", "Spain", true),
          AnswerOption("q2-o2", "Egypt", false),
          AnswerOption("q2-o3", "Italy", true),
          AnswerOption("q2-o4", "Japan", false) ]),
      Question("q3", "What is the largest continent?", SingleChoice,
        [ AnswerOption("q3-o1", "Europe", false),
          AnswerOption("q3-o2", "Asia", true),
          AnswerOption("q3-o3", "Africa", false) ]) ])

  const ScienceElements: Quiz := Quiz(
    "Science: Elements",
    "Test your knowledge of chemical elements",
    [ Question("q1", "What is the chemical symbol for Gold?", SingleChoice,
        [ AnswerOption("q1-o1", "Go", false),
          AnswerOption("q1-o2", "Au", true),
          AnswerOption("q1-o3", "Ag", false) ]),
      Question("q2", "Which of these are noble gases?", MultipleChoice,
        [ AnswerOption("q2-o1", "Helium", true),
          AnswerOption("q2-o2", "Oxygen", false),
          AnswerOption("q2-o3", "Neon", true),
          AnswerOption("q2-o4", "Sodium", false) ]) ])

  /** `quizData`, keyed by the id in the preview URL. */
  const QuizData: map<string, Quiz> :=
    map["1" := BasicMathematics, "2" := WorldGeography, "3" := ScienceElements]

  /** `quizId ? quizData[quizId] : null`: no quiz for a missing or unknown id
      (the page then shows "Quiz not found"). */
  function LoadQuiz(quizId: Maybe<string>): (r: Maybe<Quiz>)
    ensures r.Some? <==> quizId.Some? && quizId.value in {"1", "2", "3"}
    ensures r.Some? ==> r.value == QuizData[quizId.value]
  {
    match quizId
    case None => None
    case Some(id) => if id != "" && id in QuizData then Some(QuizData[id]) else None
  }

  lemma WellFormedMathematics()
    ensures WellFormedQuiz(BasicMathematics)
  {
    var qs := BasicMathematics.questions;
    assert HasCorrect(qs[0].options) by { assert qs[0].options[1].isCorrect; }
    assert HasCorrect(qs[1].options) by { assert qs[1].options[0].isCorrect; }
  }

  /** One question of "World Geography" is well formed. */
  lemma GeographyQuestionWellFormed(k: nat)
    requires k < 3
    ensures WellFormedQuestion(WorldGeography.questions[k])
  {
    var q := WorldGeography.questions[k];
    if k == 0 {
      assert OptionIds(q.options) == ["q1-o1", "q1-o2", "q1-o3"];
      assert q.options[2].isCorrect;
    } else if k == 1 {
      assert OptionIds(q.options) == ["q2-o1", "q2-o2", "q2-o3", "q2-o4"];
      assert q.options[0].isCorrect;
    } else {
      assert OptionIds(q.options) == ["q3-o1", "q3-o2", "q3-o3"];
      assert q.options[1].isCorrect;
    }
  }

  lemma WellFormedGeography()
    ensures WellFormedQuiz(WorldGeography)
  {
    var qs := WorldGeography.questions;
    assert QuestionIds(qs) == ["q1", "q2", "q3"];
    GeographyQuestionWellFormed(0);
    GeographyQuestionWellFormed(1);
    GeographyQuestionWellFormed(2);
  }

  lemma WellFormedScience()
    ensures WellFormedQuiz(ScienceElements)
  {
    var qs := ScienceElements.questions;
    assert HasCorrect(qs[0].options) by { assert qs[0].options[1].isCorrect; }
    assert HasCorrect(qs[1].options) by { assert qs[1].options[0].isCorrect; }
  }

  /** Every catalogue quiz is well formed: at least one question, unique ids,
      at least two options and one correct option per question, exactly one
      correct option per single-choice question. */
  lemma CatalogueWellFormed()
    ensures forall id :: id in QuizData ==> WellFormedQuiz(QuizData[id])
  {
    WellFormedMathematics();
    WellFormedGeography();
    WellFormedScience();
  }

  // ---------------------------------------------------------------------------
  // Taking "Basic Mathematics"

  /** Choosing "4" answers "What is 2 + 2?" correctly. */
  lemma ChoosingTheCorrectOptionScores()
    ensures IsQuestionCorrect(BasicMathematics.questions[0], map["q1" := Single("q1-o2")])
    ensures !IsQuestionCorrect(BasicMathematics.questions[0], map["q1" := Single("q1-o1")])
  {
  }

  /** Ticking 7 then 2 matches the primes in any order; ticking 2 and 4 does not. */
  lemma TickingTheCorrectSetScores()
    ensures IsQuestionCorrect(BasicMathematics.questions[1], map["q2" := Multi(["q2-o3", "q2-o1"])])
    ensures !IsQuestionCorrect(BasicMathematics.questions[1], map["q2" := Multi(["q2-o1", "q2-o2"])])
    ensures !IsQuestionCorrect(BasicMathematics.questions[1], map["q2" := Multi(["q2-o1", "q2-o1"])])
  {
    var primes := multiset(["q2-o1", "q2-o3"]);
    assert multiset(["q2-o3", "q2-o1"]) == primes;
    PrimesQuestionScored(map["q2" := Multi(["q2-o3", "q2-o1"])]);
    assert multiset(["q2-o1", "q2-o2"])["q2-o2"] == 1 && primes["q2-o2"] == 0;
    PrimesQuestionScored(map["q2" := Multi(["q2-o1", "q2-o2"])]);
    assert multiset(["q2-o1", "q2-o1"])["q2-o1"] == 2 && primes["q2-o1"] == 1;
    PrimesQuestionScored(map["q2" := Multi(["q2-o1", "q2-o1"])]);
  }

  /** "Next" stays disabled until the shown question is answered; after choosing
      an option it moves on to the second question. */
  lemma NextWaitsForAnAnswer()
    ensures PressNext(BasicMathematics.questions, Start) == Start
    ensures PressNext(BasicMathematics.questions, ChooseOption(BasicMathematics.questions, Start, "q1-o2")).index == 1
  {
  }

  /** The arithmetic question is scored whenever "4" is the stored choice. */
  lemma SumQuestionScored(answers: Answers)
    requires "q1" in answers && answers["q1"] == Single("q1-o2")
    ensures IsQuestionCorrect(BasicMathematics.questions[0], answers)
  {
    SingleCorrectIffChosen(BasicMathematics.questions[0], answers, 1);
  }

  /** The primes question is scored exactly when the ticked list is 2 and 7 in
      some order. */
  lemma PrimesQuestionScored(answers: Answers)
    requires "q2" in answers && answers["q2"].Multi?
    ensures IsQuestionCorrect(BasicMathematics.questions[1], answers) <==>
      multiset(answers["q2"].optionIds) == multiset(["q2-o1", "q2-o3"])
  {
    var q := BasicMathematics.questions[1];
    assert OptionIds(q.options) == ["q2-o1", "q2-o2", "q2-o3", "q2-o4"];
    assert CorrectIds(q.options) == ["q2-o1", "q2-o3"];
    MultipleCorrectIffPermutation(q, answers);
  }

  /** A perfect attempt scores 2 of 2, 100 percent, "Excellent work!". */
  lemma PerfectAttempt()
    ensures var answers := map["q1" := Single("q1-o2"), "q2" := Multi(["q2-o3", "q2-o1"])];
      && CorrectCount(BasicMathematics.questions, answers) == 2
      && RoundedPercent(2, 2) == 100
      && FeedbackFor(RoundedPercent(2, 2)) == Excellent
  {
    var answers := map["q1" := Single("q1-o2"), "q2" := Multi(["q2-o3", "q2-o1"])];
    SumQuestionScored(answers);
    assert multiset(["q2-o3", "q2-o1"]) == multiset(["q2-o1", "q2-o3"]);
    PrimesQuestionScored(answers);
    AllCorrectCount(BasicMathematics.questions, answers);
  }

  /** Half right: 1 of 2 rounds to 50 percent, "Keep practicing!". */
  lemma HalfRightAttempt()
    ensures var answers := map["q1" := Single("q1-o2"), "q2" := Multi(["q2-o1"])];
      && CorrectCount(BasicMathematics.questions, answers) == 1
      && RoundedPercent(1, 2) == 50
      && FeedbackFor(RoundedPercent(1, 2)) == KeepPracticing
  {
    var answers := map["q1" := Single("q1-o2"), "q2" := Multi(["q2-o1"])];
    var qs := BasicMathematics.questions;
    SumQuestionScored(answers);
    assert multiset(["q2-o1"]) != multiset(["q2-o1", "q2-o3"]) by {
      assert |multiset(["q2-o1"])| == 1;
    }
    PrimesQuestionScored(answers);
    assert qs[..1] == [qs[0]];
  }
}
