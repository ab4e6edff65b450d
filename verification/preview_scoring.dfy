/**
 Scoring of a finished attempt on the "Preview Quiz" page: which questions
 count as correct, the score, the rounded percentage and the feedback line.
 */
module PreviewScoring {
  import opened Collections
  import opened Text
  import opened QuizModel
  import opened PreviewSession

  // ---------------------------------------------------------------------------
  // Single choice

  /** Option `i` is the first option flagged correct. */
  ghost predicate FirstCorrectAt(os: seq<AnswerOption>, i: int)
  {
    && 0 <= i < |os|
    && os[i].isCorrect
    && forall j :: 0 <= j < i ==> !os[j].isCorrect
  }

  /** `options.find(o => o.isCorrect)?.id`: `undefined` when no option is correct. */
  function FirstCorrectId(os: seq<AnswerOption>): (r: Maybe<string>)
    ensures r.None? <==> !HasCorrect(os)
    ensures r.Some? ==> exists i :: FirstCorrectAt(os, i) && os[i].id == r.value
  {
    if |os| == 0 then None
    else if os[0].isCorrect then
      assert FirstCorrectAt(os, 0);
      Some(os[0].id)
    else
      var r := FirstCorrectId(os[1..]);
      assert forall i :: FirstCorrectAt(os[1..], i) ==> FirstCorrectAt(os, i + 1);
      assert HasCorrect(os) ==> HasCorrect(os[1..]) by {
        if HasCorrect(os) {
          var i :| 0 <= i < |os| && os[i].isCorrect;
          assert os[1..][i - 1].isCorrect;
        }
      }
      r
  }

  /** `answers[q.id] === correctOptionId`, with JavaScript's strict equality:
      `undefined` equals only `undefined`, and an array equals no string. */
  predicate SingleMatches(q: Question, answers: Answers)
    ensures q.id !in answers ==> (SingleMatches(q, answers) <==> !HasCorrect(q.options))
    ensures q.id in answers && answers[q.id].Multi? ==> !SingleMatches(q, answers)
    ensures q.id in answers && answers[q.id].Single? ==>
      (SingleMatches(q, answers) <==> FirstCorrectId(q.options) == Some(answers[q.id].optionId))
  {
    var stored: Maybe<Answer> := Get(answers, q.id);
    match (stored, FirstCorrectId(q.options))
    case (None, None) => true
    case (Some(Single(chosen)), Some(correct)) => chosen == correct
    case _ => false
  }

  // ---------------------------------------------------------------------------
  // Multiple choice

  /** The test `options.filter` applies: the option is flagged correct. */
  function IsCorrectOption(): AnswerOption -> bool
  {
    (o: AnswerOption) => o.isCorrect
  }

  /** `options.filter(o => o.isCorrect).map(o => o.id)`: the ids of the correct
      options, one per correct option. */
  function CorrectIds(os: seq<AnswerOption>): (r: seq<string>)
    ensures |r| == CountWhere(os, IsCorrectOption()) <= |os|
    ensures forall x :: x in r <==> exists i :: 0 <= i < |os| && os[i].isCorrect && os[i].id == x
  {
    if |os| == 0 then []
    else
      var rest := CorrectIds(os[1..]);
      assert forall i :: 1 <= i < |os| ==> os[i] == os[1..][i - 1];
      (if os[0].isCorrect then [os[0].id] else []) + rest
  }

  /** `CorrectIds` is the page's `filter(...).map(...)` chain step by step: filter the correct
      options, keeping their order and repetitions, then map each to its id. */
  lemma {:induction false} CorrectIdsAreFilteredIds(os: seq<AnswerOption>)
    ensures CorrectIds(os) == OptionIds(Filter(os, IsCorrectOption()))
  {
    if |os| > 0 {
      var rest := os[1..];
      CorrectIdsAreFilteredIds(rest);
      var kept := Filter(rest, IsCorrectOption());
      if os[0].isCorrect {
        assert Filter(os, IsCorrectOption()) == [os[0]] + kept;
        OptionIdsCons(os[0], kept);
      } else {
        assert Filter(os, IsCorrectOption()) == kept;
      }
    }
  }

  /** Mapping to ids commutes with putting an option in front. */
  lemma OptionIdsCons(o: AnswerOption, os: seq<AnswerOption>)
    ensures OptionIds([o] + os) == [o.id] + OptionIds(os)
  {
    var l, r := OptionIds([o] + os), [o.id] + OptionIds(os);
    assert |l| == |r|;
    forall i | 0 <= i < |l| ensures l[i] == r[i] {
      if i > 0 {
        assert ([o] + os)[i] == os[i - 1];
      }
    }
  }

  /** Distinct option ids give distinct correct ids. */
  lemma {:induction false} CorrectIdsDistinct(os: seq<AnswerOption>)
    requires Distinct(OptionIds(os))
    ensures Distinct(CorrectIds(os))
  {
    if |os| > 0 {
      var ids := OptionIds(os);
      assert Distinct(OptionIds(os[1..])) by {
        forall i, j | 0 <= i < |os| - 1 && 0 <= j < |os| - 1 && i != j
          ensures OptionIds(os[1..])[i] != OptionIds(os[1..])[j]
        {
          assert ids[i + 1] != ids[j + 1];
        }
      }
      CorrectIdsDistinct(os[1..]);
      var rest := CorrectIds(os[1..]);
      if os[0].isCorrect {
        forall x | x in rest ensures x != os[0].id {
          var i :| 0 <= i < |os| - 1 && os[1..][i].isCorrect && os[1..][i].id == x;
          assert ids[i + 1] != ids[0];
        }
        var r := [os[0].id] + rest;
        assert CorrectIds(os) == r;
        forall i, j | 0 <= i < |r| && 0 <= j < |r| && i != j ensures r[i] != r[j] {
          if i == 0 {
            assert r[j] == rest[j - 1] && rest[j - 1] in rest;
          } else if j == 0 {
            assert r[i] == rest[i - 1] && rest[i - 1] in rest;
          } else {
            assert r[i] == rest[i - 1] && r[j] == rest[j - 1];
          }
        }
      } else {
        assert CorrectIds(os) == rest;
      }
    }
  }

  /** `selected.length === correct.length && correct.every(id => selected.includes(id))`. */
  predicate ExactMatch(selected: seq<string>, correct: seq<string>)
    ensures multiset(selected) == multiset(correct) ==> ExactMatch(selected, correct)
  {
    assert |selected| == |multiset(selected)| && |correct| == |multiset(correct)|;
    assert forall i :: 0 <= i < |correct| ==> correct[i] in multiset(correct);
    && |selected| == |correct|
    && forall i :: 0 <= i < |correct| ==> correct[i] in selected
  }

  /** The multiple-choice test on whatever is stored under the question's id,
      read through `(answers[q.id] as string[]) || []`: nothing or `""` reads as
      no selection; a non-empty string is compared by its length and searched
      for each correct id as a substring, as JavaScript does. */
  predicate MultipleMatches(q: Question, answers: Answers)
    ensures q.id !in answers ==> (MultipleMatches(q, answers) <==> !HasCorrect(q.options))
    ensures q.id in answers && answers[q.id] == Single("") ==>
      (MultipleMatches(q, answers) <==> !HasCorrect(q.options))
    ensures q.id in answers && answers[q.id].Multi? && Distinct(CorrectIds(q.options)) ==>
      (MultipleMatches(q, answers) <==>
         multiset(answers[q.id].optionIds) == multiset(CorrectIds(q.options)))
  {
    var correct := CorrectIds(q.options);
    assert |correct| == 0 <==> !HasCorrect(q.options) by {
      if |correct| > 0 {
        assert correct[0] in correct;
      }
      if HasCorrect(q.options) {
        var i :| 0 <= i < |q.options| && q.options[i].isCorrect;
        assert q.options[i].id in correct;
      }
    }
    assert q.id in answers && answers[q.id].Multi? && Distinct(correct) ==>
      ExactMatch(answers[q.id].optionIds, correct) ==>
        multiset(answers[q.id].optionIds) == multiset(correct)
    by {
      if q.id in answers && answers[q.id].Multi? && Distinct(correct) && ExactMatch(answers[q.id].optionIds, correct) {
        MatchIsPermutation(answers[q.id].optionIds, correct);
      }
    }
    var stored: Maybe<Answer> := Get(answers, q.id);
    match stored
    case None => ExactMatch([], correct)
    case Some(Multi(selected)) => ExactMatch(selected, correct)
    case Some(Single(s)) =>
      if s == "" then ExactMatch([], correct)
      else |s| == |correct| && forall i :: 0 <= i < |correct| ==> Includes(s, correct[i])
  }

  /** Whether `calculateScore` counts question `q`. */
  predicate IsQuestionCorrect(q: Question, answers: Answers)
    ensures q.id !in answers ==> (IsQuestionCorrect(q, answers) <==> !HasCorrect(q.options))
    ensures q.kind == SingleChoice && q.id in answers && answers[q.id].Multi? ==> !IsQuestionCorrect(q, answers)
  {
    if q.kind == SingleChoice then SingleMatches(q, answers) else MultipleMatches(q, answers)
  }

  // ---------------------------------------------------------------------------
  // Properties of the per-question test

  /** Against distinct correct ids, a matching selection is a permutation of them. */
  lemma MatchIsPermutation(selected: seq<string>, correct: seq<string>)
    requires Distinct(correct)
    requires ExactMatch(selected, correct)
    ensures multiset(selected) == multiset(correct)
  {
    var ms, mc := multiset(selected), multiset(correct);
    forall x ensures mc[x] <= ms[x] {
      DistinctMultiplicity(correct, x);
      if x in correct {
        var i :| 0 <= i < |correct| && correct[i] == x;
        assert x in selected;
      }
    }
    assert mc <= ms;
    var d := ms - mc;
    assert mc + d == ms;
    assert |d| == 0;
  }

  /** A sequence holding the same value at two positions holds it at least twice. */
  lemma RepeatedTwice(s: seq<string>, i: nat, j: nat)
    requires i < j < |s| && s[i] == s[j]
    ensures multiset(s)[s[i]] >= 2
  {
    assert s == s[..j] + s[j..];
    assert s[i] in s[..j];
    assert s[j] in s[j..];
  }

  /** Multiple-choice exact-match scoring: with distinct option ids, a recorded
      selection counts exactly when it is a permutation of the correct ids. */
  lemma MultipleCorrectIffPermutation(q: Question, answers: Answers)
    requires q.kind == MultipleChoice
    requires Distinct(OptionIds(q.options))
    requires q.id in answers && answers[q.id].Multi?
    ensures IsQuestionCorrect(q, answers) <==>
      multiset(answers[q.id].optionIds) == multiset(CorrectIds(q.options))
  {
    var selected, correct := answers[q.id].optionIds, CorrectIds(q.options);
    CorrectIdsDistinct(q.options);
    if ExactMatch(selected, correct) {
      MatchIsPermutation(selected, correct);
    }
  }

  /** A selection holding some id twice never matches distinct correct ids. */
  lemma DuplicateSelectionNeverMatches(selected: seq<string>, correct: seq<string>, i: nat, j: nat)
    requires Distinct(correct)
    requires i < j < |selected| && selected[i] == selected[j]
    ensures !ExactMatch(selected, correct)
  {
    RepeatedTwice(selected, i, j);
    DistinctMultiplicity(correct, selected[i]);
    if ExactMatch(selected, correct) {
      MatchIsPermutation(selected, correct);
    }
  }

  /** Reordering a selection does not change whether it matches. */
  lemma SelectionOrderIrrelevant(a: seq<string>, b: seq<string>, correct: seq<string>)
    requires multiset(a) == multiset(b)
    ensures ExactMatch(a, correct) <==> ExactMatch(b, correct)
  {
    assert |a| == |multiset(a)| && |b| == |multiset(b)|;
    assert forall x :: x in a <==> x in b by {
      forall x ensures x in a <==> x in b {
        assert x in a <==> x in multiset(a);
        assert x in b <==> x in multiset(b);
      }
    }
  }

  /** A single-choice question with exactly one correct option counts exactly
      when that option's id was chosen. */
  lemma SingleCorrectIffChosen(q: Question, answers: Answers, k: nat)
    requires q.kind == SingleChoice
    requires k < |q.options| && q.options[k].isCorrect && AtMostOneCorrect(q.options)
    ensures IsQuestionCorrect(q, answers) <==> q.id in answers && answers[q.id] == Single(q.options[k].id)
  {
    assert HasCorrect(q.options);
    var first := FirstCorrectId(q.options);
    assert first.Some?;
    var i: int :| FirstCorrectAt(q.options, i) && q.options[i].id == first.value;
    assert i == k;
  }

  /** A string stored under a multiple-choice question is read through
      `.length` and substring `.includes`: the text "ab" matches the correct ids
      "a" and "b", since it has two characters and contains both. */
  lemma StringUnderMultipleChoiceCanScore()
    ensures IsQuestionCorrect(
      Question("q", "Pick two", MultipleChoice, [AnswerOption("a", "A", true), AnswerOption("b", "B", true)]),
      map["q" := Single("ab")])
  {
    var os := [AnswerOption("a", "A", true), AnswerOption("b", "B", true)];
    assert CorrectIds(os) == ["a", "b"];
    assert OccursAt("ab", "a", 0) && OccursAt("ab", "b", 1);
  }

  // ---------------------------------------------------------------------------
  // Score

  /** The number of questions counted correct. */
  function CorrectCount(qs: seq<Question>, answers: Answers): (n: nat)
    ensures n <= |qs|
  {
    if |qs| == 0 then 0
    else CorrectCount(qs[..|qs| - 1], answers) + (if IsQuestionCorrect(qs[|qs| - 1], answers) then 1 else 0)
  }

  /** Every question counted: the count is the number of questions. */
  lemma {:induction false} AllCorrectCount(qs: seq<Question>, answers: Answers)
    requires forall i :: 0 <= i < |qs| ==> IsQuestionCorrect(qs[i], answers)
    ensures CorrectCount(qs, answers) == |qs|
  {
    if |qs| > 0 {
      AllCorrectCount(qs[..|qs| - 1], answers);
    }
  }

  /** No question counted: the count is zero. */
  lemma {:induction false} NoneCorrectCount(qs: seq<Question>, answers: Answers)
    requires forall i :: 0 <= i < |qs| ==> !IsQuestionCorrect(qs[i], answers)
    ensures CorrectCount(qs, answers) == 0
  {
    if |qs| > 0 {
      NoneCorrectCount(qs[..|qs| - 1], answers);
    }
  }

  /** A positive multiple of at least one `d` is at least `d`. */
  lemma MulAtLeast(d: int, k: int)
    requires d > 0 && k >= 1
    ensures d * k >= d
  {
  }

  /** A negative multiple of at least one `d` is at most `-d`. */
  lemma MulAtMost(d: int, k: int)
    requires d > 0 && k <= -1
    ensures d * k <= -d
  {
  }

  /** Integer division is determined by its bracketing multiples. */
  lemma DivIsUnique(n: int, d: int, q: int)
    requires d > 0 && d * q <= n < d * q + d
    ensures n / d == q
  {
    var r, m := n / d, n % d;
    assert n == d * r + m && 0 <= m < d;
    var k := q - r;
    assert d * k == d * q - d * r;
    if k >= 1 {
      MulAtLeast(d, k);
    } else if k <= -1 {
      MulAtMost(d, k);
    }
  }

  /** A dividend below `d * q + d` has a quotient of at most `q`. */
  lemma QuotientAtMost(n: int, d: int, q: int)
    requires d > 0 && n < d * q + d
    ensures n / d <= q
  {
    var r, m := n / d, n % d;
    assert n == d * r + m && 0 <= m < d;
    var k := r - q;
    assert d * k == d * r - d * q;
    if k >= 1 {
      MulAtLeast(d, k);
    }
  }

  /** `Math.round((score / total) * 100)`, computed exactly on integers:
      round half up of 100 * score / total. This abstracts the floating-point
      computation of the page, whose rounding error is not modelled. */
  function RoundedPercent(score: nat, total: nat): (p: nat)
    requires total > 0
    ensures 2 * total * p <= 200 * score + total < 2 * total * p + 2 * total
    ensures score <= total ==> p <= 100
    ensures score == total ==> p == 100
    ensures score == 0 ==> p == 0
  {
    var n, d := 200 * score + total, 2 * total;
    var p := n / d;
    assert n == d * p + n % d && 0 <= n % d < d;
    if score == total then
      DivIsUnique(n, d, 100);
      p
    else if score == 0 then
      DivIsUnique(n, d, 0);
      p
    else if score < total then
      QuotientAtMost(n, d, 100);
      p
    else p
  }

  /** The record `calculateScore` returns. */
  datatype ScoreResult = ScoreResult(score: nat, total: nat, percentage: nat)

  /** `calculateScore`: walks the questions once, counting the correct ones. */
  method CalculateScore(qs: seq<Question>, answers: Answers) returns (result: ScoreResult)
    requires |qs| > 0
    ensures result.score == CorrectCount(qs, answers)
    ensures result.total == |qs| && result.score <= result.total
    ensures result.percentage == RoundedPercent(result.score, result.total)
    ensures result.percentage <= 100
  {
    var correctAnswers := 0;
    var i := 0;
    while i < |qs|
      invariant 0 <= i <= |qs|
      invariant correctAnswers == CorrectCount(qs[..i], answers)
    {
      assert qs[..i + 1][..i] == qs[..i];
      if IsQuestionCorrect(qs[i], answers) {
        correctAnswers := correctAnswers + 1;
      }
      i := i + 1;
    }
    assert qs[..|qs|] == qs;
    result := ScoreResult(correctAnswers, |qs|, RoundedPercent(correctAnswers, |qs|));
  }

  /** All questions right gives 100 percent; none right gives 0 percent. */
  lemma PercentageExtremes(qs: seq<Question>, answers: Answers)
    requires |qs| > 0
    ensures (forall i :: 0 <= i < |qs| ==> IsQuestionCorrect(qs[i], answers)) ==>
      RoundedPercent(CorrectCount(qs, answers), |qs|) == 100
    ensures (forall i :: 0 <= i < |qs| ==> !IsQuestionCorrect(qs[i], answers)) ==>
      RoundedPercent(CorrectCount(qs, answers), |qs|) == 0
  {
    if forall i :: 0 <= i < |qs| ==> IsQuestionCorrect(qs[i], answers) {
      AllCorrectCount(qs, answers);
    }
    if forall i :: 0 <= i < |qs| ==> !IsQuestionCorrect(qs[i], answers) {
      NoneCorrectCount(qs, answers);
    }
  }

  // ---------------------------------------------------------------------------
  // Results screen

  /** The line under the score. */
  datatype Feedback = Excellent | GoodJob | KeepPracticing

  /** "Excellent work!" from 80, "Good job!" from 60, "Keep practicing!" below. */
  function FeedbackFor(percentage: int): (f: Feedback)
    ensures f == Excellent <==> percentage >= 80
    ensures f == GoodJob <==> 60 <= percentage < 80
    ensures f == KeepPracticing <==> percentage < 60
  {
    if percentage >= 80 then Excellent
    else if percentage >= 60 then GoodJob
    else KeepPracticing
  }
}
