/**
 The data the quiz pages share: a quiz is a titled, ordered list of
 questions; a question is single- or multiple-choice and owns an ordered list
 of answer options, each flagged correct or not.
 */
module QuizModel {
  import opened Collections

  /** `type: "single" | "multiple"`. */
  datatype QuestionType = SingleChoice | MultipleChoice

  /** `{ id, text, isCorrect }`. */
  datatype AnswerOption = AnswerOption(id: string, text: string, isCorrect: bool)

  /** `{ id, text, type, options }`. */
  datatype Question = Question(id: string, text: string, kind: QuestionType, options: seq<AnswerOption>)

  /** A catalogue entry: `{ title, description, questions }`. */
  datatype Quiz = Quiz(title: string, description: string, questions: seq<Question>)

  function QuestionIds(qs: seq<Question>): (ids: seq<string>)
    ensures |ids| == |qs| && forall i :: 0 <= i < |qs| ==> ids[i] == qs[i].id
  {
    Map(qs, (q: Question) => q.id)
  }

  function OptionIds(os: seq<AnswerOption>): (ids: seq<string>)
    ensures |ids| == |os| && forall i :: 0 <= i < |os| ==> ids[i] == os[i].id
  {
    Map(os, (o: AnswerOption) => o.id)
  }

  /** Some option is flagged correct (`options.some(o => o.isCorrect)`). */
  predicate HasCorrect(os: seq<AnswerOption>)
  {
    exists i :: 0 <= i < |os| && os[i].isCorrect
  }

  /** No two options are flagged correct. */
  predicate AtMostOneCorrect(os: seq<AnswerOption>)
  {
    forall i, j :: 0 <= i < |os| && 0 <= j < |os| && os[i].isCorrect && os[j].isCorrect ==> i == j
  }

  /** The shape a finished question is meant to have: at least two options,
      at least one of them correct, exactly one when single-choice, and
      option ids unique within the question. */
  ghost predicate WellFormedQuestion(q: Question)
  {
    && |q.options| >= 2
    && HasCorrect(q.options)
    && (q.kind == SingleChoice ==> AtMostOneCorrect(q.options))
    && Distinct(OptionIds(q.options))
  }

  /** A well-formed quiz: at least one question, unique question ids, every
      question well formed. */
  ghost predicate WellFormedQuiz(quiz: Quiz)
  {
    && |quiz.questions| >= 1
    && Distinct(QuestionIds(quiz.questions))
    && forall i :: 0 <= i < |quiz.questions| ==> WellFormedQuestion(quiz.questions[i])
  }
}
