/**
 The "My Quizzes" dashboard: a fixed list of quiz summaries and a search box
 that narrows the list to the quizzes whose title contains the search term,
 ignoring letter case.
 */
module Dashboard {
  import opened Collections
  import opened Text

  /** One card on the dashboard. */
  datatype QuizSummary = QuizSummary(
    id: string,
    title: string,
    questions: nat,
    lastUpdated: string,
    category: string)

  /** `sampleQuizzes`, the list the dashboard starts with. */
  const SampleQuizzes: seq<QuizSummary> := [
    QuizSummary("1", "Basic Mathematics", 10, "2025-04-12", "Math"),
    QuizSummary("2", "World Geography", 15, "2025-04-14", "Geography"),
    QuizSummary("3", "Science: Elements", 8, "2025-04-15", "Science")
  ]

  /** `title.toLowerCase().includes(term.toLowerCase())`. */
  predicate TitleMatches(title: string, term: string)
  {
    Includes(Lower(title), Lower(term))
  }

  /** The per-card test handed to `filter`. */
  function MatchesTerm(term: string): QuizSummary -> bool
  {
    (quiz: QuizSummary) => TitleMatches(quiz.title, term)
  }

  /** `filteredQuizzes`: the cards shown for a search term, in list order. */
  function FilteredQuizzes(quizzes: seq<QuizSummary>, term: string): (r: seq<QuizSummary>)
    ensures IsSubsequence(r, quizzes)
    ensures forall i :: 0 <= i < |r| ==> TitleMatches(r[i].title, term)
    ensures forall i :: 0 <= i < |quizzes| && TitleMatches(quizzes[i].title, term) ==> quizzes[i] in r
    ensures |r| == CountWhere(quizzes, MatchesTerm(term))
  {
    Filter(quizzes, MatchesTerm(term))
  }

  /** `filteredQuizzes.length === 0 && searchTerm`: the "No quizzes found"
      message, shown only for a non-empty term. */
  predicate NoQuizzesFound(quizzes: seq<QuizSummary>, term: string)
  {
    |FilteredQuizzes(quizzes, term)| == 0 && term != ""
  }

  /** An empty search box shows every quiz, in order. */
  lemma EmptyTermKeepsAll(quizzes: seq<QuizSummary>)
    ensures FilteredQuizzes(quizzes, "") == quizzes
  {
    assert Lower("") == "";
    forall i | 0 <= i < |quizzes| ensures MatchesTerm("")(quizzes[i]) {
      IncludesEmpty(Lower(quizzes[i].title));
    }
    FilterKeepsAll(quizzes, MatchesTerm(""));
  }

  /** The "No quizzes found" message appears exactly when the term is
      non-empty and no title contains it. */
  lemma NoQuizzesFoundIff(quizzes: seq<QuizSummary>, term: string)
    ensures NoQuizzesFound(quizzes, term)
      <==> term != "" && forall i :: 0 <= i < |quizzes| ==> !TitleMatches(quizzes[i].title, term)
  {
    var r := FilteredQuizzes(quizzes, term);
    if forall i :: 0 <= i < |quizzes| ==> !TitleMatches(quizzes[i].title, term) {
      CountWhereNone(quizzes, MatchesTerm(term));
    }
    if exists i :: 0 <= i < |quizzes| && TitleMatches(quizzes[i].title, term) {
      var i :| 0 <= i < |quizzes| && TitleMatches(quizzes[i].title, term);
      assert quizzes[i] in r;
    }
  }

  /** The search ignores the case of the term: typing it in capitals shows the
      same cards as typing it in lower case. */
  lemma SearchIgnoresTermCase(quizzes: seq<QuizSummary>, term: string)
    ensures FilteredQuizzes(quizzes, Lower(term)) == FilteredQuizzes(quizzes, term)
  {
    LowerIdempotent(term);
    FilterCongruence(quizzes, MatchesTerm(Lower(term)), MatchesTerm(term));
  }

  /** A title lacking both cases of some letter of the term (written in
      either case) does not match it. */
  lemma LetterMissingFromTitle(title: string, term: string, k: nat)
    requires k < |term| && ('a' <= term[k] <= 'z' || 'A' <= term[k] <= 'Z')
    requires LowerChar(term[k]) !in title && (LowerChar(term[k]) as int - 32) as char !in title
    ensures !TitleMatches(title, term)
  {
    LowerAvoids(title, LowerChar(term[k]));
    assert Lower(term)[k] == LowerChar(term[k]);
    MissingCharNotIncluded(Lower(title), Lower(term), k);
  }

  /** When exactly one quiz's title contains the term, the dashboard shows
      that quiz alone. */
  lemma {:induction false} SingleMatchShownAlone(quizzes: seq<QuizSummary>, term: string, k: nat)
    requires k < |quizzes| && TitleMatches(quizzes[k].title, term)
    requires forall i :: 0 <= i < |quizzes| && i != k ==> !TitleMatches(quizzes[i].title, term)
    ensures FilteredQuizzes(quizzes, term) == [quizzes[k]]
  {
    var p := MatchesTerm(term);
    var before, here, after := quizzes[..k], [quizzes[k]], quizzes[k + 1..];
    assert quizzes == before + (here + after);
    forall i | 0 <= i < |before| ensures !p(before[i]) {
      assert before[i] == quizzes[i];
    }
    forall i | 0 <= i < |after| ensures !p(after[i]) {
      assert after[i] == quizzes[k + 1 + i];
    }
    CountWhereNone(before, p);
    CountWhereNone(after, p);
    assert here[1..] == [];
    FilterAppend(here, after, p);
    FilterAppend(before, here + after, p);
  }

  /** The sample title "World Geography" matches the term "geo": the capital
      'G' is lower-cased before the substring search. The title and term are
      parameters pinned by the precondition, because a statement on the
      literal text makes the solver evaluate the search character by
      character. */
  lemma GeographyContainsGeo(title: string, term: string)
    requires title == "World Geography" && term == "geo"
    ensures TitleMatches(title, term)
  {
    var t := Lower(title);
    assert t[6] == 'g' && t[7] == 'e' && t[8] == 'o';
    assert t[6..9] == Lower(term);
    assert OccursAt(t, Lower(term), 6);
  }
}
