/**
 The quiz-authoring draft: the list of questions the "Create Quiz" page edits,
 the editing operations bound to its buttons and inputs, and the validation
 chain run by "Save Quiz". Each operation maps the current question list to
 the next one; a toast the page would show is returned as a `Notice`.
 */
module CreateQuiz {
  import opened Collections
  import opened Text
  import opened QuizModel

  /** The error toasts an edit can raise instead of changing a question. */
  datatype Notice = NoNotice | AtLeastOneQuestion | AtLeastTwoOptions

  /** The question list after an edit, with the toast the edit raised. */
  datatype Edit = Edit(questions: seq<Question>, notice: Notice)

  /** The errors "Save Quiz" reports, in the order it checks them. */
  datatype ValidationError = EmptyTitle | EmptyQuestionText | NoCorrectOption | EmptyOptionText

  datatype SaveOutcome = Saved | Rejected(error: ValidationError)

  /** The draft the page opens with. Its option ids carry no question prefix. */
  const InitialQuestions: seq<Question> :=
    [Question("q1", "", SingleChoice, [AnswerOption("o1", "", false), AnswerOption("o2", "", false)])]

  /** The id `addQuestion` gives the question it appends to a list of `n - 1`. */
  function QuestionId(n: nat): string
  {
    "q" + NatToString(n)
  }

  /** The id `addOption` gives the option it appends to a list of `n - 1`. */
  function OptionId(qid: string, n: nat): string
  {
    qid + "-o" + NatToString(n)
  }

  // ---------------------------------------------------------------------------
  // Questions

  /** Appends an empty single-choice question with two empty, incorrect options;
      its id is derived from the current length, not from the ids in use. */
  function AddQuestion(qs: seq<Question>): (r: seq<Question>)
    ensures |r| == |qs| + 1
    ensures r[..|qs|] == qs
    ensures r[|qs|].id == "q" + NatToString(|qs| + 1)
    ensures r[|qs|].text == "" && r[|qs|].kind == SingleChoice
    ensures |r[|qs|].options| == 2 && !HasCorrect(r[|qs|].options)
    ensures r[|qs|].options[0] == AnswerOption(r[|qs|].id + "-o1", "", false)
    ensures r[|qs|].options[1] == AnswerOption(r[|qs|].id + "-o2", "", false)
  {
    var id := QuestionId(|qs| + 1);
    qs + [Question(id, "", SingleChoice, [AnswerOption(id + "-o1", "", false), AnswerOption(id + "-o2", "", false)])]
  }

  /** The filter `removeQuestion` applies: keep the questions with another id. */
  function OtherQuestion(qid: string): Question -> bool
  {
    (q: Question) => q.id != qid
  }

  /** Refuses when the list holds at most one question; otherwise keeps exactly
      the questions whose id differs from `qid`, in their order. */
  function RemoveQuestion(qs: seq<Question>, qid: string): (r: Edit)
    ensures |qs| <= 1 ==> r == Edit(qs, AtLeastOneQuestion)
    ensures |qs| > 1 ==> r.notice == NoNotice
    ensures |qs| > 1 ==> IsSubsequence(r.questions, qs)
    ensures |qs| > 1 ==> forall i :: 0 <= i < |r.questions| ==> r.questions[i].id != qid
    ensures |qs| > 1 ==> forall i :: 0 <= i < |qs| && qs[i].id != qid ==> qs[i] in r.questions
    ensures |qs| > 1 ==> |r.questions| == CountWhere(qs, OtherQuestion(qid))
  {
    if |qs| > 1 then Edit(Filter(qs, OtherQuestion(qid)), NoNotice)
    else Edit(qs, AtLeastOneQuestion)
  }

  /** With pairwise distinct ids, removing a present question shortens the list
      by one and never below one question. */
  lemma RemoveQuestionWithDistinctIds(qs: seq<Question>, k: nat)
    requires Distinct(QuestionIds(qs))
    requires k < |qs|
    ensures var r := RemoveQuestion(qs, qs[k].id).questions;
      && |r| == (if |qs| == 1 then 1 else |qs| - 1)
      && |r| >= 1
  {
    if |qs| > 1 {
      assert forall i :: 0 <= i < |qs| && i != k ==> QuestionIds(qs)[i] != QuestionIds(qs)[k];
      CountWhereOneDropped(qs, OtherQuestion(qs[k].id), k);
    }
  }

  /** Removing an id no question carries changes nothing. */
  lemma RemoveAbsentQuestion(qs: seq<Question>, qid: string)
    requires qid !in QuestionIds(qs)
    ensures RemoveQuestion(qs, qid).questions == qs
  {
    if |qs| > 1 {
      assert forall i :: 0 <= i < |qs| ==> QuestionIds(qs)[i] == qs[i].id;
      FilterKeepsAll(qs, OtherQuestion(qid));
    }
  }

  /** Sets the text of every question whose id is `qid`. */
  function UpdateQuestionText(qs: seq<Question>, qid: string, text: string): (r: seq<Question>)
    ensures |r| == |qs|
    ensures forall i :: 0 <= i < |qs| ==>
      && r[i].id == qs[i].id && r[i].kind == qs[i].kind && r[i].options == qs[i].options
      && r[i].text == (if qs[i].id == qid then text else qs[i].text)
  {
    Map(qs, (q: Question) => if q.id == qid then q.(text := text) else q)
  }

  /** Sets the type of every question whose id is `qid`; the correct flags are
      left as they are, even when the new type is single-choice. */
  function UpdateQuestionType(qs: seq<Question>, qid: string, kind: QuestionType): (r: seq<Question>)
    ensures |r| == |qs|
    ensures forall i :: 0 <= i < |qs| ==>
      && r[i].id == qs[i].id && r[i].text == qs[i].text && r[i].options == qs[i].options
      && r[i].kind == (if qs[i].id == qid then kind else qs[i].kind)
  {
    Map(qs, (q: Question) => if q.id == qid then q.(kind := kind) else q)
  }

  // ---------------------------------------------------------------------------
  // Options

  /** Sets the text of every option `oid` of every question `qid`. */
  function UpdateOptionText(qs: seq<Question>, qid: string, oid: string, text: string): (r: seq<Question>)
    ensures |r| == |qs|
    ensures forall i :: 0 <= i < |qs| && qs[i].id != qid ==> r[i] == qs[i]
    ensures forall i :: 0 <= i < |qs| && qs[i].id == qid ==>
      && r[i].id == qs[i].id && r[i].text == qs[i].text && r[i].kind == qs[i].kind
      && |r[i].options| == |qs[i].options|
      && forall j :: 0 <= j < |qs[i].options| ==>
        && r[i].options[j].id == qs[i].options[j].id
        && r[i].options[j].isCorrect == qs[i].options[j].isCorrect
        && r[i].options[j].text == (if qs[i].options[j].id == oid then text else qs[i].options[j].text)
  {
    Map(qs, (q: Question) =>
      if q.id == qid then
        q.(options := Map(q.options, (o: AnswerOption) => if o.id == oid then o.(text := text) else o))
      else q)
  }

  /** The correct flag of an option after `updateOptionCorrect(_, oid, isCorrect)`
      on a question of type `kind`: exclusive selection when a single-choice
      question gets a correct option, a plain write of the one flag otherwise. */
  predicate FlagAfter(kind: QuestionType, o: AnswerOption, oid: string, isCorrect: bool)
  {
    if kind == SingleChoice && isCorrect then o.id == oid
    else if o.id == oid then isCorrect
    else o.isCorrect
  }

  /** Sets the correct flag of option `oid` in every question `qid`. */
  function UpdateOptionCorrect(qs: seq<Question>, qid: string, oid: string, isCorrect: bool): (r: seq<Question>)
    ensures |r| == |qs|
    ensures forall i :: 0 <= i < |qs| && qs[i].id != qid ==> r[i] == qs[i]
    ensures forall i :: 0 <= i < |qs| && qs[i].id == qid ==>
      && r[i].id == qs[i].id && r[i].text == qs[i].text && r[i].kind == qs[i].kind
      && |r[i].options| == |qs[i].options|
      && forall j :: 0 <= j < |qs[i].options| ==>
        && r[i].options[j].id == qs[i].options[j].id
        && r[i].options[j].text == qs[i].options[j].text
        && r[i].options[j].isCorrect == FlagAfter(qs[i].kind, qs[i].options[j], oid, isCorrect)
  {
    Map(qs, (q: Question) =>
      if q.id != qid then q
      else if q.kind == SingleChoice && isCorrect then
        q.(options := Map(q.options, (o: AnswerOption) => o.(isCorrect := o.id == oid)))
      else
        q.(options := Map(q.options, (o: AnswerOption) => if o.id == oid then o.(isCorrect := isCorrect) else o)))
  }

  /** Marking an option correct in a single-choice question with distinct option
      ids leaves exactly that option correct, or none when the id is absent. */
  lemma SingleChoiceSelectionIsExclusive(qs: seq<Question>, i: nat, oid: string)
    requires i < |qs| && qs[i].kind == SingleChoice
    requires Distinct(OptionIds(qs[i].options))
    ensures var os := UpdateOptionCorrect(qs, qs[i].id, oid, true)[i].options;
      && AtMostOneCorrect(os)
      && (HasCorrect(os) <==> oid in OptionIds(qs[i].options))
  {
    var os := UpdateOptionCorrect(qs, qs[i].id, oid, true)[i].options;
    var ids := OptionIds(qs[i].options);
    forall j, k | 0 <= j < |os| && 0 <= k < |os| && os[j].isCorrect && os[k].isCorrect
      ensures j == k
    {
      assert ids[j] == oid == ids[k];
    }
    if oid in ids {
      var j :| 0 <= j < |ids| && ids[j] == oid;
      assert os[j].isCorrect;
    }
  }

  /** Appends an empty, incorrect option to every question `qid`; its id is
      derived from the option count, not from the ids in use. */
  function AddOption(qs: seq<Question>, qid: string): (r: seq<Question>)
    ensures |r| == |qs|
    ensures forall i :: 0 <= i < |qs| && qs[i].id != qid ==> r[i] == qs[i]
    ensures forall i :: 0 <= i < |qs| && qs[i].id == qid ==>
      && r[i].id == qs[i].id && r[i].text == qs[i].text && r[i].kind == qs[i].kind
      && |r[i].options| == |qs[i].options| + 1
      && r[i].options[..|qs[i].options|] == qs[i].options
      && r[i].options[|qs[i].options|].id == qid + "-o" + NatToString(|qs[i].options| + 1)
      && r[i].options[|qs[i].options|].text == ""
      && !r[i].options[|qs[i].options|].isCorrect
  {
    Map(qs, (q: Question) =>
      if q.id != qid then q
      else q.(options := q.options + [AnswerOption(OptionId(q.id, |q.options| + 1), "", false)]))
  }

  /** The filter `removeOption` applies: keep the options with another id. */
  function OtherOption(oid: string): AnswerOption -> bool
  {
    (o: AnswerOption) => o.id != oid
  }

  /** A question `qid` that already has at most two options keeps them all and
      raises the toast; any other question `qid` loses every option `oid`. */
  function RemoveOption(qs: seq<Question>, qid: string, oid: string): (r: Edit)
    ensures |r.questions| == |qs|
    ensures forall i :: 0 <= i < |qs| && (qs[i].id != qid || |qs[i].options| <= 2) ==> r.questions[i] == qs[i]
    ensures forall i :: 0 <= i < |qs| && qs[i].id == qid && |qs[i].options| > 2 ==>
      && r.questions[i].id == qs[i].id && r.questions[i].text == qs[i].text
      && r.questions[i].kind == qs[i].kind
      && IsSubsequence(r.questions[i].options, qs[i].options)
      && (forall j :: 0 <= j < |r.questions[i].options| ==> r.questions[i].options[j].id != oid)
      && (forall j :: 0 <= j < |qs[i].options| && qs[i].options[j].id != oid ==>
            qs[i].options[j] in r.questions[i].options)
      && |r.questions[i].options| == CountWhere(qs[i].options, OtherOption(oid))
    ensures r.notice != AtLeastOneQuestion
    ensures r.notice == AtLeastTwoOptions <==>
      exists i :: 0 <= i < |qs| && qs[i].id == qid && |qs[i].options| <= 2
  {
    var questions := Map(qs, (q: Question) =>
      if q.id != qid || |q.options| <= 2 then q
      else q.(options := Filter(q.options, OtherOption(oid))));
    var refused := Any(qs, (q: Question) => q.id == qid && |q.options| <= 2);
    Edit(questions, if refused then AtLeastTwoOptions else NoNotice)
  }

  /** With distinct option ids, removing a present option from a question with
      more than two leaves one option fewer and never fewer than two. */
  lemma RemoveOptionWithDistinctIds(qs: seq<Question>, i: nat, k: nat)
    requires i < |qs| && k < |qs[i].options| && |qs[i].options| > 2
    requires Distinct(OptionIds(qs[i].options))
    ensures var os := RemoveOption(qs, qs[i].id, qs[i].options[k].id).questions[i].options;
      |os| == |qs[i].options| - 1 >= 2
  {
    var os := qs[i].options;
    assert forall j :: 0 <= j < |os| && j != k ==> OptionIds(os)[j] != OptionIds(os)[k];
    CountWhereOneDropped(os, OtherOption(os[k].id), k);
  }

  /** Removing the option just added, when its generated id was not already in
      use and the question had at least two options, restores the options. */
  lemma {:induction false} AddThenRemoveOption(qs: seq<Question>, i: nat)
    requires i < |qs| && |qs[i].options| >= 2
    requires OptionId(qs[i].id, |qs[i].options| + 1) !in OptionIds(qs[i].options)
    ensures RemoveOption(AddOption(qs, qs[i].id), qs[i].id, OptionId(qs[i].id, |qs[i].options| + 1))
              .questions[i].options == qs[i].options
  {
    var os := qs[i].options;
    var nid := OptionId(qs[i].id, |os| + 1);
    var a := AddOption(qs, qs[i].id);
    var added := a[i].options;
    assert a[i].id == qs[i].id && |added| == |os| + 1;
    RemoveOptionAt(a, i, nid);
    var keep := OtherOption(nid);
    forall j | 0 <= j < |os| ensures keep(os[j]) {
      assert OptionIds(os)[j] == os[j].id;
    }
    FilterKeepsAll(os, keep);
    assert added == os + [added[|os|]];
    assert Filter([added[|os|]], keep) == [] by {
      assert [added[|os|]][1..] == [];
    }
    FilterAppend(os, [added[|os|]], keep);
  }

  /** On a question with at most one option, adding an option and removing it
      again does not restore the options: after the addition the question has
      at most two, so the removal is refused and the new option stays. */
  lemma AddThenRemoveOnFewOptionsKeepsIt(qs: seq<Question>, i: nat)
    requires i < |qs| && |qs[i].options| <= 1
    ensures var a := AddOption(qs, qs[i].id);
      var e := RemoveOption(a, qs[i].id, OptionId(qs[i].id, |qs[i].options| + 1));
      && e.notice == AtLeastTwoOptions
      && e.questions[i].options == a[i].options
      && |e.questions[i].options| == |qs[i].options| + 1
  {
    var a := AddOption(qs, qs[i].id);
    assert a[i].id == qs[i].id && |a[i].options| == |qs[i].options| + 1;
  }

  /** On a question with more than two options, `removeOption` keeps exactly
      what the filter keeps. */
  lemma RemoveOptionAt(qs: seq<Question>, i: nat, oid: string)
    requires i < |qs| && |qs[i].options| > 2
    ensures RemoveOption(qs, qs[i].id, oid).questions[i].options == Filter(qs[i].options, OtherOption(oid))
  {
  }

  // ---------------------------------------------------------------------------
  // Saving

  /** Every check of "Save Quiz" passes. */
  ghost predicate ReadyToSave(title: string, qs: seq<Question>)
  {
    && !IsBlank(title)
    && (forall i :: 0 <= i < |qs| ==> !IsBlank(qs[i].text))
    && (forall i :: 0 <= i < |qs| ==> HasCorrect(qs[i].options))
    && (forall i, j :: 0 <= i < |qs| && 0 <= j < |qs[i].options| ==> !IsBlank(qs[i].options[j].text))
  }

  /** Runs the four checks in order and reports the first that fails. */
  function HandleSave(title: string, qs: seq<Question>): (r: SaveOutcome)
    ensures r == Saved <==> ReadyToSave(title, qs)
    ensures r == Rejected(EmptyTitle) <==> IsBlank(title)
    ensures r == Rejected(EmptyQuestionText) <==>
      && !IsBlank(title)
      && exists i :: 0 <= i < |qs| && IsBlank(qs[i].text)
    ensures r == Rejected(NoCorrectOption) <==>
      && !IsBlank(title)
      && (forall i :: 0 <= i < |qs| ==> !IsBlank(qs[i].text))
      && exists i :: 0 <= i < |qs| && !HasCorrect(qs[i].options)
    ensures r == Rejected(EmptyOptionText) <==>
      && !IsBlank(title)
      && (forall i :: 0 <= i < |qs| ==> !IsBlank(qs[i].text))
      && (forall i :: 0 <= i < |qs| ==> HasCorrect(qs[i].options))
      && exists i, j :: 0 <= i < |qs| && 0 <= j < |qs[i].options| && IsBlank(qs[i].options[j].text)
  {
    if IsBlank(title) then Rejected(EmptyTitle)
    else if Any(qs, (q: Question) => IsBlank(q.text)) then Rejected(EmptyQuestionText)
    else if Any(qs, (q: Question) => !HasCorrect(q.options)) then Rejected(NoCorrectOption)
    else if Any(qs, (q: Question) => Any(q.options, (o: AnswerOption) => IsBlank(o.text))) then
      Rejected(EmptyOptionText)
    else Saved
  }

  // ---------------------------------------------------------------------------
  // Quirks of id generation and of the count guards

  /** Two question numbers with the same generated id are equal. */
  lemma QuestionIdInjective(a: nat, b: nat)
    requires QuestionId(a) == QuestionId(b)
    ensures a == b
  {
    assert NatToString(a) == QuestionId(a)[1..];
    assert NatToString(b) == QuestionId(b)[1..];
    NatToStringInjective(a, b);
  }

  /** The ids of a list built from the initial draft by `addQuestion` alone. */
  ghost predicate SequentialIds(qs: seq<Question>)
  {
    forall i :: 0 <= i < |qs| ==> qs[i].id == QuestionId(i + 1)
  }

  /** The initial draft's single question carries the id `addQuestion` would
      have given it. */
  lemma InitialIdsAreSequential()
    ensures SequentialIds(InitialQuestions)
  {
    assert NatToString(1) == "1";
  }

  /** Without removals the generated ids are fresh: appending to q1..qn gives
      q1..qn+1, which are pairwise distinct. */
  lemma AppendOnlyIdsAreDistinct(qs: seq<Question>)
    requires SequentialIds(qs)
    ensures SequentialIds(AddQuestion(qs))
    ensures Distinct(QuestionIds(AddQuestion(qs)))
  {
    assert NatToString(1) == "1";
    var r := AddQuestion(qs);
    forall i, j | 0 <= i < |r| && 0 <= j < |r| && i != j
      ensures QuestionIds(r)[i] != QuestionIds(r)[j]
    {
      if r[i].id == r[j].id {
        QuestionIdInjective(i + 1, j + 1);
      }
    }
  }

  /** On a list built by `addQuestion` alone, removing the question just added
      restores the list. */
  lemma {:induction false} AddThenRemoveQuestion(qs: seq<Question>)
    requires |qs| >= 1 && SequentialIds(qs)
    ensures RemoveQuestion(AddQuestion(qs), QuestionId(|qs| + 1)).questions == qs
  {
    var r := AddQuestion(qs);
    var keep := OtherQuestion(QuestionId(|qs| + 1));
    forall i | 0 <= i < |qs| ensures keep(qs[i]) {
      if qs[i].id == QuestionId(|qs| + 1) {
        QuestionIdInjective(i + 1, |qs| + 1);
      }
    }
    FilterKeepsAll(qs, keep);
    assert r == qs + [r[|qs|]];
    assert Filter([r[|qs|]], keep) == [] by {
      assert [r[|qs|]][1..] == [];
    }
    FilterAppend(qs, [r[|qs|]], keep);
  }

  /** After a removal the generated id can already be in use: from the initial
      draft, add (q1, q2), remove q1 (q2), add (q2, q2). Removing q2 then
      empties the list although the guard promised at least one question. */
  lemma GeneratedQuestionIdCanCollide()
    ensures var d := AddQuestion(RemoveQuestion(AddQuestion(InitialQuestions), "q1").questions);
      && |d| == 2 && d[0].id == "q2" && d[1].id == "q2"
      && RemoveQuestion(d, "q2").questions == []
  {
    assert NatToString(2) == "2";
    var d1 := AddQuestion(InitialQuestions);
    assert d1[1].id == "q2";
    var d2 := RemoveQuestion(d1, "q1").questions;
    assert d2 == [d1[1]] by {
      assert Filter(d1[1..], OtherQuestion("q1")) == [d1[1]] by {
        assert d1[1..][1..] == [];
      }
    }
    var d := AddQuestion(d2);
    assert d[1].id == "q2";
    assert Filter(d[1..], OtherQuestion("q2")) == [] by {
      assert d[1..][1..] == [];
    }
  }

  /** The same collision for options: add q1-o3, remove o2, add q1-o3 again;
      removing q1-o3 then leaves a single option. */
  lemma GeneratedOptionIdCanCollide()
    ensures var qs := AddOption(RemoveOption(AddOption(InitialQuestions, "q1"), "q1", "o2").questions, "q1");
      && OptionIds(qs[0].options) == ["o1", "q1-o3", "q1-o3"]
      && |RemoveOption(qs, "q1", "q1-o3").questions[0].options| == 1
  {
    assert NatToString(3) == "3";
    assert OptionId("q1", 3) == "q1-o3";
    var q1 := AddOption(InitialQuestions, "q1");
    assert OptionIds(q1[0].options) == ["o1", "o2", "q1-o3"];
    var q2 := RemoveOption(q1, "q1", "o2").questions;
    var os := q1[0].options;
    assert Filter(os, OtherOption("o2")) == [os[0], os[2]] by {
      assert os[1..][1..] == [os[2]];
      assert os[1..][1..][1..] == [];
    }
    assert OptionIds(q2[0].options) == ["o1", "q1-o3"];
    var qs := AddOption(q2, "q1");
    assert OptionIds(qs[0].options) == ["o1", "q1-o3", "q1-o3"];
    var os3 := qs[0].options;
    assert os3[0].id == "o1" && os3[1].id == "q1-o3" && os3[2].id == "q1-o3";
    assert Filter(os3, OtherOption("q1-o3")) == [os3[0]] by {
      assert os3[1..][1..] == [os3[2]];
      assert os3[1..][1..][1..] == [];
      assert Filter(os3[1..][1..], OtherOption("q1-o3")) == [];
      assert Filter(os3[1..], OtherOption("q1-o3")) == [];
    }
  }

  /** Switching a multiple-choice question with two correct options back to
      single choice keeps both flags: exclusivity is only enforced when a flag
      is set, never on a type change. */
  lemma TypeChangeKeepsSeveralCorrect()
    ensures var qs := UpdateQuestionType(
              UpdateOptionCorrect(
                UpdateOptionCorrect(UpdateQuestionType(InitialQuestions, "q1", MultipleChoice), "q1", "o1", true),
                "q1", "o2", true),
              "q1", SingleChoice);
      && qs[0].kind == SingleChoice
      && qs[0].options[0].isCorrect && qs[0].options[1].isCorrect
      && !AtMostOneCorrect(qs[0].options)
  {
  }

  /** "Save Quiz" does not check the single-choice exclusivity either: a
      single-choice question with two correct options is saved. */
  lemma SaveAcceptsSeveralCorrectInSingleChoice()
    ensures HandleSave("Quiz", [Question("q1", "Pick one", SingleChoice,
              [AnswerOption("o1", "A", true), AnswerOption("o2", "B", true)])]) == Saved
  {
    var os := [AnswerOption("o1", "A", true), AnswerOption("o2", "B", true)];
    var qs := [Question("q1", "Pick one", SingleChoice, os)];
    NotBlank("Quiz");
    NotBlank("Pick one");
    NotBlank("A");
    NotBlank("B");
    assert HasCorrect(os) by { assert os[0].isCorrect; }
    assert ReadyToSave("Quiz", qs);
  }
}
