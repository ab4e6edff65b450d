/**
 The quiz-taking session of the "Preview Quiz" page: which question is shown,
 the answers recorded so far, and whether the results are on screen, with the
 transitions the page's controls trigger.
 */
module PreviewSession {
  import opened Collections
  import opened QuizModel

  /** A recorded answer: the chosen option id of a single-choice question, or
      the ticked option ids of a multiple-choice question in ticking order,
      repetitions included. */
  datatype Answer = Single(optionId: string) | Multi(optionIds: seq<string>)

  /** `answers`, keyed by question id. */
  type Answers = map<string, Answer>

  /** `currentQuestionIndex`, `answers` and `showResults`. */
  datatype Session = Session(index: nat, answers: Answers, showResults: bool)

  /** The state the page mounts with. */
  const Start: Session := Session(0, map[], false)

  // ---------------------------------------------------------------------------
  // Recording answers

  /** Records `oid` as the answer of question `qid`, replacing any earlier one. */
  function HandleSingleAnswer(answers: Answers, qid: string, oid: string): (r: Answers)
    ensures r.Keys == answers.Keys + {qid}
    ensures r[qid] == Single(oid)
    ensures forall k :: k in answers && k != qid ==> r[k] == answers[k]
  {
    answers[qid := Single(oid)]
  }

  /** Choosing the same option twice is the same as choosing it once. */
  lemma SingleAnswerIdempotent(answers: Answers, qid: string, oid: string)
    ensures HandleSingleAnswer(HandleSingleAnswer(answers, qid, oid), qid, oid)
         == HandleSingleAnswer(answers, qid, oid)
  {
  }

  /** The key holds no non-empty single-choice answer, so `answers[qid] as string[]`
      is an array or falsy, and `|| []` turns a falsy value into the empty list. */
  predicate NoSingleAt(answers: Answers, qid: string)
  {
    qid !in answers || answers[qid].Multi? || answers[qid].optionId == ""
  }

  /** `(answers[qid] as string[]) || []`: the ticked ids, none when unanswered
      or when the empty string is stored. */
  function Ticked(answers: Answers, qid: string): seq<string>
    requires NoSingleAt(answers, qid)
  {
    if qid in answers && answers[qid].Multi? then answers[qid].optionIds else []
  }

  /** The filter unticking applies: keep the other ids. */
  function OtherId(oid: string): string -> bool
  {
    (x: string) => x != oid
  }

  /** Ticking appends `oid` (without checking whether it is already there);
      unticking removes every copy of it. The key is always written. */
  function HandleMultipleAnswer(answers: Answers, qid: string, oid: string, checked: bool): (r: Answers)
    requires NoSingleAt(answers, qid)
    ensures r.Keys == answers.Keys + {qid}
    ensures forall k :: k in answers && k != qid ==> r[k] == answers[k]
    ensures r[qid].Multi?
    ensures checked ==> r[qid].optionIds == Ticked(answers, qid) + [oid]
    ensures !checked ==>
      && IsSubsequence(r[qid].optionIds, Ticked(answers, qid))
      && oid !in r[qid].optionIds
      && (forall i :: 0 <= i < |Ticked(answers, qid)| && Ticked(answers, qid)[i] != oid ==>
            Ticked(answers, qid)[i] in r[qid].optionIds)
      && |r[qid].optionIds| == CountWhere(Ticked(answers, qid), OtherId(oid))
  {
    var current := Ticked(answers, qid);
    if checked then answers[qid := Multi(current + [oid])]
    else answers[qid := Multi(Filter(current, OtherId(oid)))]
  }

  /** A stored empty string counts as no ticked ids: ticking starts a fresh
      list and unticking leaves an empty one. */
  lemma EmptyStoredIdReadsAsNoTicks(answers: Answers, qid: string, oid: string)
    requires qid in answers && answers[qid] == Single("")
    ensures HandleMultipleAnswer(answers, qid, oid, true)[qid] == Multi([oid])
    ensures HandleMultipleAnswer(answers, qid, oid, false)[qid] == Multi([])
  {
  }

  /** Unticking an id that is not ticked leaves the list as it was (the key is
      still written, with the unchanged list). */
  lemma UntickAbsentIsNoOp(answers: Answers, qid: string, oid: string)
    requires NoSingleAt(answers, qid)
    requires oid !in Ticked(answers, qid)
    ensures HandleMultipleAnswer(answers, qid, oid, false) == answers[qid := Multi(Ticked(answers, qid))]
  {
    FilterKeepsAll(Ticked(answers, qid), OtherId(oid));
  }

  /** Ticking an unticked id and unticking it again restores the ticked list. */
  lemma TickThenUntick(answers: Answers, qid: string, oid: string)
    requires NoSingleAt(answers, qid)
    requires oid !in Ticked(answers, qid)
    ensures var once := HandleMultipleAnswer(answers, qid, oid, true);
      HandleMultipleAnswer(once, qid, oid, false) == answers[qid := Multi(Ticked(answers, qid))]
  {
    var current := Ticked(answers, qid);
    var once := HandleMultipleAnswer(answers, qid, oid, true);
    assert Ticked(once, qid) == current + [oid];
    FilterAppend(current, [oid], OtherId(oid));
    FilterKeepsAll(current, OtherId(oid));
    assert Filter([oid], OtherId(oid)) == [];
    assert Filter(Ticked(once, qid), OtherId(oid)) == current;
  }

  /** Ticking the same id twice records it twice. */
  lemma TickingTwiceDuplicates(answers: Answers, qid: string, oid: string)
    requires NoSingleAt(answers, qid)
    ensures var twice := HandleMultipleAnswer(HandleMultipleAnswer(answers, qid, oid, true), qid, oid, true);
      twice[qid].optionIds == Ticked(answers, qid) + [oid, oid]
  {
    assert Ticked(answers, qid) + [oid] + [oid] == Ticked(answers, qid) + [oid, oid];
  }

  // ---------------------------------------------------------------------------
  // The "answered" guard

  /** JavaScript truthiness of a stored answer: `undefined` and `""` are falsy,
      every array (even an empty one) is truthy. */
  predicate IsTruthy(stored: Maybe<Answer>)
  {
    match stored
    case None => false
    case Some(Single(s)) => s != ""
    case Some(Multi(_)) => true
  }

  /** `.length` of a stored string or array. */
  function StoredLength(stored: Maybe<Answer>): nat
  {
    match stored
    case None => 0
    case Some(Single(s)) => |s|
    case Some(Multi(ids)) => |ids|
  }

  /** `isQuestionAnswered`: `!!answers[qid]` for single choice,
      `(answers[qid] || []).length > 0` for multiple choice. */
  function IsQuestionAnswered(answers: Answers, qid: string, kind: QuestionType): (r: bool)
    ensures qid !in answers ==> !r
    ensures qid in answers && answers[qid].Single? ==> (r <==> answers[qid].optionId != "")
    ensures kind == MultipleChoice && qid in answers && answers[qid].Multi? ==>
      (r <==> |answers[qid].optionIds| > 0)
    ensures kind == SingleChoice && qid in answers && answers[qid].Multi? ==> r
  {
    var stored := Get(answers, qid);
    if kind == SingleChoice then IsTruthy(stored)
    else StoredLength(if IsTruthy(stored) then stored else None) > 0
  }

  /** After a single-choice answer the question counts as answered exactly when
      the chosen id is non-empty; after ticking, a multiple-choice question
      always counts as answered. */
  lemma AnsweringMakesAnswered(answers: Answers, qid: string, oid: string)
    ensures IsQuestionAnswered(HandleSingleAnswer(answers, qid, oid), qid, SingleChoice) <==> oid != ""
    ensures NoSingleAt(answers, qid) ==>
      IsQuestionAnswered(HandleMultipleAnswer(answers, qid, oid, true), qid, MultipleChoice)
  {
  }

  // ---------------------------------------------------------------------------
  // Navigation

  /** `handleNext`: the next question, or the results after the last one. */
  function HandleNext(count: nat, s: Session): (r: Session)
    ensures r.answers == s.answers
    ensures s.index < count ==> r.index < count
    ensures r.index == (if s.index + 1 < count then s.index + 1 else s.index)
    ensures r.showResults <==> s.showResults || s.index + 1 >= count
  {
    if s.index < count - 1 then s.(index := s.index + 1) else s.(showResults := true)
  }

  /** `handlePrevious`: the previous question, nothing at the first one. */
  function HandlePrevious(s: Session): (r: Session)
    ensures r.answers == s.answers && r.showResults == s.showResults
    ensures r.index <= s.index
    ensures r.index == (if s.index > 0 then s.index - 1 else 0)
  {
    if s.index > 0 then s.(index := s.index - 1) else s
  }

  /** "Review Answers": hides the results and keeps position and answers. */
  function ReviewAnswers(s: Session): (r: Session)
    ensures !r.showResults
    ensures r.index == s.index && r.answers == s.answers
  {
    s.(showResults := false)
  }

  /** The "Next"/"Finish" button is enabled exactly when the shown question is answered. */
  predicate NextEnabled(qs: seq<Question>, s: Session)
    requires s.index < |qs|
  {
    IsQuestionAnswered(s.answers, qs[s.index].id, qs[s.index].kind)
  }

  /** The "Previous" button is disabled on the first question. */
  predicate PreviousEnabled(s: Session)
  {
    s.index != 0
  }

  /** A press of "Next"/"Finish": a disabled button does nothing. */
  function PressNext(qs: seq<Question>, s: Session): (r: Session)
    requires s.index < |qs|
    ensures !NextEnabled(qs, s) ==> r == s
    ensures NextEnabled(qs, s) ==> r == HandleNext(|qs|, s)
    ensures r.index < |qs|
  {
    if NextEnabled(qs, s) then HandleNext(|qs|, s) else s
  }

  /** A press of "Previous": a disabled button does nothing. */
  function PressPrevious(s: Session): (r: Session)
    ensures s.index == 0 ==> r == s
    ensures s.index > 0 ==> r.index == s.index - 1 && r.answers == s.answers
  {
    if PreviousEnabled(s) then HandlePrevious(s) else s
  }

  // ---------------------------------------------------------------------------
  // The page's wiring of answers to the shown question

  /** "Previous" undoes a "Next" that moved to another question. */
  lemma NextThenPrevious(qs: seq<Question>, s: Session)
    requires s.index + 1 < |qs| && NextEnabled(qs, s)
    ensures PressPrevious(PressNext(qs, s)) == s
  {
  }

  /** Each recorded answer of a question of `qs` has the shape of its type. */
  ghost predicate TypedAnswers(qs: seq<Question>, answers: Answers)
  {
    forall i :: 0 <= i < |qs| && qs[i].id in answers ==>
      (answers[qs[i].id].Single? <==> qs[i].kind == SingleChoice)
  }

  /** The radio group of a single-choice question records the chosen option. */
  function ChooseOption(qs: seq<Question>, s: Session, oid: string): (r: Session)
    requires s.index < |qs| && qs[s.index].kind == SingleChoice
    ensures r.index == s.index && r.showResults == s.showResults
    ensures r.answers == HandleSingleAnswer(s.answers, qs[s.index].id, oid)
  {
    s.(answers := HandleSingleAnswer(s.answers, qs[s.index].id, oid))
  }

  /** A checkbox of a multiple-choice question ticks or unticks its option. */
  function ToggleOption(qs: seq<Question>, s: Session, oid: string, checked: bool): (r: Session)
    requires s.index < |qs| && qs[s.index].kind == MultipleChoice
    requires TypedAnswers(qs, s.answers)
    ensures r.index == s.index && r.showResults == s.showResults
    ensures NoSingleAt(s.answers, qs[s.index].id)
    ensures r.answers == HandleMultipleAnswer(s.answers, qs[s.index].id, oid, checked)
  {
    s.(answers := HandleMultipleAnswer(s.answers, qs[s.index].id, oid, checked))
  }

  /** What the page keeps true while a quiz with distinct question ids is taken:
      the index points at a question and answers have their question's shape. */
  ghost predicate ValidSession(qs: seq<Question>, s: Session)
  {
    && s.index < |qs|
    && TypedAnswers(qs, s.answers)
  }

  /** The session starts valid on any non-empty quiz. */
  lemma StartIsValid(qs: seq<Question>)
    requires |qs| > 0
    ensures ValidSession(qs, Start)
    ensures Start.index == 0 && Start.answers == map[] && !Start.showResults
  {
  }

  /** Every control of the page keeps the session valid. */
  lemma {:induction false} ControlsPreserveValidity(qs: seq<Question>, s: Session, oid: string, checked: bool)
    requires Distinct(QuestionIds(qs))
    requires ValidSession(qs, s)
    ensures qs[s.index].kind == SingleChoice ==> ValidSession(qs, ChooseOption(qs, s, oid))
    ensures qs[s.index].kind == MultipleChoice ==> ValidSession(qs, ToggleOption(qs, s, oid, checked))
    ensures ValidSession(qs, PressNext(qs, s))
    ensures ValidSession(qs, PressPrevious(s))
    ensures ValidSession(qs, ReviewAnswers(s))
  {
    var qid := qs[s.index].id;
    assert forall i :: 0 <= i < |qs| && qs[i].id == qid ==> i == s.index by {
      forall i | 0 <= i < |qs| && qs[i].id == qid ensures i == s.index {
        assert QuestionIds(qs)[i] == QuestionIds(qs)[s.index];
      }
    }
  }
}
