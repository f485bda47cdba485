/**
 * Grading a quiz submission and building its detailed results
 * (`submitQuiz` and `getQuizResults` in backend/controllers/quizController.js).
 *
 * A quiz is submitted once: the submission grades every answer whose
 * question exists, stores the graded answers, the score and the completion
 * time together, and from then on further submissions are refused while the
 * results become available.
 */
module QuizGrading {
  import opened Values
  import opened AnswerResolver

  /** A stored question. A missing options list is stored as the empty one. */
  datatype Question = Question(question: string, options: seq<string>, correctAnswer: Answer, explanation: string)

  /** One element of the submitted `answers` array. */
  datatype SubmittedAnswer = SubmittedAnswer(questionIndex: int, selectedAnswer: Answer)

  /** One element of the stored `userAnswers`; `answeredAt` is a clock reading. */
  datatype UserAnswer = UserAnswer(questionIndex: int, selectedAnswer: Answer, isCorrect: bool, answeredAt: int)

  /** The request body: `answers` is an array, or it is anything else. */
  datatype SubmitBody = AnswerList(answers: seq<SubmittedAnswer>) | NotAList

  /**
   * What the loop over the answers ends with: the graded answers and the
   * number of correct ones, or the exception that stops it.
   */
  datatype GradingOutcome = Completed(userAnswers: seq<UserAnswer>, correctCount: nat) | Failed(error: string)

  /** The response of the submit handler. */
  datatype SubmitResponse =
    | Submitted(score: Score, correctCount: nat, totalQuestions: nat, userAnswers: seq<UserAnswer>)
    | Rejected(statusCode: int, error: string)
    | Errored(error: string)

  /** One row of `detailedResults`. */
  datatype ResultRow = ResultRow(
    questionIndex: nat, question: string, options: seq<string>, correctAnswer: Answer,
    selectedAnswer: Answer, isCorrect: bool, explanation: string)

  /** The response of the results handler. */
  datatype ResultsResponse =
    | Ready(score: Score, totalQuestions: nat, completedAt: int, rows: seq<ResultRow>)
    | NotCompleted(statusCode: int, error: string)

  const NotAnArrayError := "Please provide an array of answers"
  const AlreadyCompletedError := "Quiz already completed"
  const NotCompletedError := "Quiz not completed"
  /** What reading `options` of the missing question throws. */
  const MissingQuestionError := "Cannot read properties of undefined (reading 'options')"

  // ---------------------------------------------------------------------
  // Grading

  /**
   * The graded form of one answer to question `q`: it keeps what was
   * submitted, and it is correct only when it names the stored answer's
   * option; the stored answer itself is always correct.
   */
  function Mark(q: Question, a: SubmittedAnswer, now: int): (u: UserAnswer)
    ensures u.questionIndex == a.questionIndex && u.selectedAnswer == a.selectedAnswer && u.answeredAt == now
    ensures u.isCorrect ==> ResolveIndex(a.selectedAnswer, q.options) == ResolveIndex(q.correctAnswer, q.options)
    ensures a.selectedAnswer == q.correctAnswer ==> u.isCorrect
    ensures u.isCorrect == IsCorrect(a.selectedAnswer, q.correctAnswer, q.options)
  {
    UserAnswer(a.questionIndex, a.selectedAnswer, IsCorrect(a.selectedAnswer, q.correctAnswer, q.options), now)
  }

  /** Some answer names a question before the first one. */
  predicate HasNegativeIndex(answers: seq<SubmittedAnswer>)
  {
    exists j :: 0 <= j < |answers| && answers[j].questionIndex < 0
  }

  /**
   * The graded answers, in submission order, of the answers whose question
   * exists; the others are skipped.
   */
  function GradedAnswers(qs: seq<Question>, answers: seq<SubmittedAnswer>, now: int): (g: seq<UserAnswer>)
    ensures |g| <= |answers|
    ensures forall k :: 0 <= k < |g| ==> 0 <= g[k].questionIndex < |qs|
  {
    if answers == [] then []
    else
      var prev := GradedAnswers(qs, answers[..|answers| - 1], now);
      var a := answers[|answers| - 1];
      if 0 <= a.questionIndex < |qs| then prev + [Mark(qs[a.questionIndex], a, now)] else prev
  }

  /** The number of graded answers marked correct. */
  function CountCorrect(ua: seq<UserAnswer>): (c: nat)
    ensures c <= |ua|
  {
    if ua == [] then 0
    else CountCorrect(ua[..|ua| - 1]) + (if ua[|ua| - 1].isCorrect then 1 else 0)
  }

  /** No more answers are correct than there are answers. */
  lemma {:induction false} CountCorrectBounded(ua: seq<UserAnswer>)
    ensures CountCorrect(ua) <= |ua|
    ensures CountCorrect(ua) == |ua| <==> forall k :: 0 <= k < |ua| ==> ua[k].isCorrect
    ensures CountCorrect(ua) == 0 <==> forall k :: 0 <= k < |ua| ==> !ua[k].isCorrect
  {
    if ua != [] {
      var init := ua[..|ua| - 1];
      CountCorrectBounded(init);
      assert forall k :: 0 <= k < |init| ==> init[k] == ua[k];
    }
  }

  /** Every stored answer names an existing question and is graded against it. */
  ghost predicate GradedAgainst(qs: seq<Question>, ua: seq<UserAnswer>)
  {
    forall k :: 0 <= k < |ua| ==>
      0 <= ua[k].questionIndex < |qs| &&
      ua[k].isCorrect == IsCorrect(ua[k].selectedAnswer, qs[ua[k].questionIndex].correctAnswer,
                                   qs[ua[k].questionIndex].options)
  }

  /**
   * The graded answers are at most as many as the submitted ones, each names
   * an existing question and is graded against that question, and an answer
   * naming an existing question is never dropped.
   */
  lemma {:induction false} GradedAnswersSpec(qs: seq<Question>, answers: seq<SubmittedAnswer>, now: int)
    ensures var g := GradedAnswers(qs, answers, now);
            && |g| <= |answers|
            && GradedAgainst(qs, g)
            && ((forall j :: 0 <= j < |answers| ==> 0 <= answers[j].questionIndex < |qs|) ==> |g| == |answers|)
  {
    if answers != [] {
      var init := answers[..|answers| - 1];
      GradedAnswersSpec(qs, init, now);
      assert forall j :: 0 <= j < |init| ==> init[j] == answers[j];
    }
  }

  /** When every answer names an existing question, the k-th stored answer grades the k-th submitted one. */
  lemma {:induction false} GradedAnswersInOrder(qs: seq<Question>, answers: seq<SubmittedAnswer>, now: int, k: nat)
    requires forall j :: 0 <= j < |answers| ==> 0 <= answers[j].questionIndex < |qs|
    requires k < |answers|
    ensures |GradedAnswers(qs, answers, now)| == |answers|
    ensures GradedAnswers(qs, answers, now)[k] == Mark(qs[answers[k].questionIndex], answers[k], now)
  {
    GradedAnswersSpec(qs, answers, now);
    var init := answers[..|answers| - 1];
    assert forall j :: 0 <= j < |init| ==> init[j] == answers[j];
    GradedAnswersSpec(qs, init, now);
    if k < |init| {
      GradedAnswersInOrder(qs, init, now, k);
    }
  }

  /** Answers that name no existing question leave nothing behind. */
  lemma {:induction false} GradedAnswersSkipsUnknown(qs: seq<Question>, answers: seq<SubmittedAnswer>, now: int)
    requires forall j :: 0 <= j < |answers| ==> answers[j].questionIndex >= |qs|
    ensures GradedAnswers(qs, answers, now) == []
  {
    if answers != [] {
      var init := answers[..|answers| - 1];
      assert forall j :: 0 <= j < |init| ==> init[j] == answers[j];
      GradedAnswersSkipsUnknown(qs, init, now);
    }
  }

  /** A single answer is graded when its question exists and skipped otherwise. */
  lemma GradedAnswersSingle(qs: seq<Question>, a: SubmittedAnswer, now: int)
    ensures 0 <= a.questionIndex < |qs| ==> GradedAnswers(qs, [a], now) == [Mark(qs[a.questionIndex], a, now)]
    ensures !(0 <= a.questionIndex < |qs|) ==> GradedAnswers(qs, [a], now) == []
  {
    assert [a][..0] == [];
  }

  /**
   * Grading runs through the answers in order: the graded answers of two
   * consecutive parts of a submission are those of the first part followed by
   * those of the second.
   */
  lemma {:induction false} GradedAnswersAppend(qs: seq<Question>, a: seq<SubmittedAnswer>, b: seq<SubmittedAnswer>, now: int)
    ensures GradedAnswers(qs, a + b, now) == GradedAnswers(qs, a, now) + GradedAnswers(qs, b, now)
  {
    if b == [] {
      assert a + b == a;
    } else {
      var init := b[..|b| - 1];
      GradedAnswersAppend(qs, a, init, now);
      assert (a + b)[..|a + b| - 1] == a + init;
      assert (a + b)[|a + b| - 1] == b[|b| - 1];
    }
  }

  /** An answer naming an existing question is kept, graded, whatever the other answers are. */
  lemma {:induction false} InRangeKept(qs: seq<Question>, answers: seq<SubmittedAnswer>, now: int, j: nat)
    requires j < |answers| && 0 <= answers[j].questionIndex < |qs|
    ensures Mark(qs[answers[j].questionIndex], answers[j], now) in GradedAnswers(qs, answers, now)
  {
    var init := answers[..|answers| - 1];
    if j < |init| {
      assert init[j] == answers[j];
      InRangeKept(qs, init, now, j);
    }
  }

  /**
   * The loop of `submitQuiz` over the submitted answers: it skips an answer
   * whose index is not below the number of questions, throws on a negative
   * index (there is no question there), and otherwise grades the answer,
   * counting it when correct.
   */
  method GradeAnswers(qs: seq<Question>, answers: seq<SubmittedAnswer>, now: int) returns (g: GradingOutcome)
    ensures g.Failed? <==> HasNegativeIndex(answers)
    ensures g.Failed? ==> g.error == MissingQuestionError
    ensures g.Completed? ==> g.userAnswers == GradedAnswers(qs, answers, now)
    ensures g.Completed? ==> g.correctCount == CountCorrect(g.userAnswers)
  {
    var correctCount := 0;
    var userAnswers: seq<UserAnswer> := [];
    var i := 0;
    while i < |answers|
      invariant 0 <= i <= |answers|
      invariant forall j :: 0 <= j < i ==> answers[j].questionIndex >= 0
      invariant userAnswers == GradedAnswers(qs, answers[..i], now)
      invariant correctCount == CountCorrect(userAnswers)
    {
      var a := answers[i];
      assert answers[..i + 1][..i] == answers[..i];
      if a.questionIndex < |qs| {
        if a.questionIndex < 0 {
          return Failed(MissingQuestionError);
        }
        var q := qs[a.questionIndex];
        var isCorrect := IsCorrect(a.selectedAnswer, q.correctAnswer, q.options);
        if isCorrect {
          correctCount := correctCount + 1;
        }
        userAnswers := userAnswers + [UserAnswer(a.questionIndex, a.selectedAnswer, isCorrect, now)];
      }
      i := i + 1;
    }
    assert answers[..i] == answers;
    return Completed(userAnswers, correctCount);
  }

  // ---------------------------------------------------------------------
  // The score

  /** No two answers name the same question. */
  predicate DistinctIndices(answers: seq<SubmittedAnswer>)
  {
    forall j, k :: 0 <= j < k < |answers| ==> answers[j].questionIndex != answers[k].questionIndex
  }

  predicate DistinctStored(ua: seq<UserAnswer>)
  {
    forall j, k :: 0 <= j < k < |ua| ==> ua[j].questionIndex != ua[k].questionIndex
  }

  /** The question indices named by the submitted answers. */
  function SubmittedIndices(answers: seq<SubmittedAnswer>): set<int>
  {
    set j | 0 <= j < |answers| :: answers[j].questionIndex
  }

  /** The stored answers come from the submitted ones, so their indices are among those. */
  lemma {:induction false} GradedIndicesSubmitted(qs: seq<Question>, answers: seq<SubmittedAnswer>, now: int)
    ensures forall k :: 0 <= k < |GradedAnswers(qs, answers, now)| ==>
              GradedAnswers(qs, answers, now)[k].questionIndex in SubmittedIndices(answers)
  {
    if answers != [] {
      var init := answers[..|answers| - 1];
      var last := answers[|answers| - 1];
      var g, prev := GradedAnswers(qs, answers, now), GradedAnswers(qs, init, now);
      GradedIndicesSubmitted(qs, init, now);
      forall k | 0 <= k < |g| ensures g[k].questionIndex in SubmittedIndices(answers)
      {
        if k < |prev| {
          assert g[k] == prev[k];
          assert prev[k].questionIndex in SubmittedIndices(init);
          var j :| 0 <= j < |init| && init[j].questionIndex == prev[k].questionIndex;
          assert answers[j] == init[j];
        } else {
          assert g[k].questionIndex == last.questionIndex;
          assert answers[|answers| - 1] == last;
        }
      }
    }
  }

  /** Distinct submitted indices give distinct stored indices. */
  lemma {:induction false} GradedDistinct(qs: seq<Question>, answers: seq<SubmittedAnswer>, now: int)
    requires DistinctIndices(answers)
    ensures DistinctStored(GradedAnswers(qs, answers, now))
  {
    if answers != [] {
      var init := answers[..|answers| - 1];
      var last := answers[|answers| - 1];
      var g, prev := GradedAnswers(qs, answers, now), GradedAnswers(qs, init, now);
      assert DistinctIndices(init) by {
        assert forall j :: 0 <= j < |init| ==> init[j] == answers[j];
      }
      GradedDistinct(qs, init, now);
      GradedIndicesSubmitted(qs, init, now);
      forall j, k | 0 <= j < k < |g| ensures g[j].questionIndex != g[k].questionIndex
      {
        assert g[j] == prev[j];
        if k < |prev| {
          assert g[k] == prev[k];
        } else {
          assert g[k].questionIndex == last.questionIndex;
          assert prev[j].questionIndex in SubmittedIndices(init);
          var m :| 0 <= m < |init| && init[m].questionIndex == prev[j].questionIndex;
          assert answers[m] == init[m];
        }
      }
    }
  }

  function IndexSet(ua: seq<UserAnswer>): set<int>
  {
    set k | 0 <= k < |ua| :: ua[k].questionIndex
  }

  lemma {:induction false} IndexSetSize(ua: seq<UserAnswer>)
    requires DistinctStored(ua)
    ensures |IndexSet(ua)| == |ua|
  {
    if ua != [] {
      var init := ua[..|ua| - 1];
      IndexSetSize(init);
      assert IndexSet(ua) == IndexSet(init) + {ua[|ua| - 1].questionIndex};
    }
  }

  /** The indices 0 to n - 1. */
  function Below(n: nat): (r: set<int>)
    ensures forall i :: i in r <==> 0 <= i < n
  {
    if n == 0 then {} else Below(n - 1) + {n - 1}
  }

  lemma {:induction false} BelowSize(n: nat)
    ensures |Below(n)| == n
  {
    if n > 0 {
      BelowSize(n - 1);
    }
  }

  /** Stored answers to distinct existing questions are at most as many as the questions. */
  lemma DistinctStoredBounded(ua: seq<UserAnswer>, n: nat)
    requires DistinctStored(ua)
    requires forall k :: 0 <= k < |ua| ==> 0 <= ua[k].questionIndex < n
    ensures |ua| <= n
  {
    IndexSetSize(ua);
    BelowSize(n);
    assert IndexSet(ua) <= Below(n);
    SubsetSize(IndexSet(ua), Below(n));
  }

  lemma SubsetSize(a: set<int>, b: set<int>)
    requires a <= b
    ensures |a| <= |b|
  {
    assert b == a + (b - a);
  }

  /**
   * When no two answers name the same question and `totalQuestions` is the
   * number of questions, the score is a percentage between 0 and 100.
   */
  lemma ScoreWithinPercent(qs: seq<Question>, answers: seq<SubmittedAnswer>, now: int)
    requires DistinctIndices(answers) && |qs| > 0
    ensures var s := ComputeScore(CountCorrect(GradedAnswers(qs, answers, now)), |qs|);
            s.Percent? && 0 <= s.value <= 100
  {
    var g := GradedAnswers(qs, answers, now);
    GradedAnswersSpec(qs, answers, now);
    GradedDistinct(qs, answers, now);
    DistinctStoredBounded(g, |qs|);
    CountCorrectBounded(g);
  }

  /**
   * Without distinct indices the bound fails: answering the only question
   * correctly twice scores 200.
   */
  lemma DuplicateAnswersScore200()
    ensures var qs := [Question("q", ["a"], Num(0), "")];
            var answers := [SubmittedAnswer(0, Num(0)), SubmittedAnswer(0, Num(0))];
            ComputeScore(CountCorrect(GradedAnswers(qs, answers, 0)), |qs|) == Percent(200)
  {
    var qs := [Question("q", ["a"], Num(0), "")];
    var a := SubmittedAnswer(0, Num(0));
    var answers := [a, a];
    var u := Mark(qs[0], a, 0);
    assert u.isCorrect by { IsCorrectReflexive(Num(0), ["a"]); }
    assert answers[..1] == [a] && [a][..0] == [];
    assert GradedAnswers(qs, [a], 0) == [u];
    assert GradedAnswers(qs, answers, 0) == [u, u];
    assert [u, u][..1] == [u] && [u][..0] == [];
    assert CountCorrect([u]) == 1;
    assert CountCorrect([u, u]) == 2;
    assert RoundedPercent(2, 1) == 200;
  }

  /**
   * Four questions whose answers are options 0 to 3, answered 0, 1, 1, 3:
   * three are correct and the score is 75.
   */
  lemma GradingScenario()
    ensures var opts := ["a", "b", "c", "d"];
            var qs := [Question("q1", opts, Num(0), ""), Question("q2", opts, Num(1), ""),
                       Question("q3", opts, Num(2), ""), Question("q4", opts, Num(3), "")];
            var answers := [SubmittedAnswer(0, Num(0)), SubmittedAnswer(1, Num(1)),
                            SubmittedAnswer(2, Num(1)), SubmittedAnswer(3, Num(3))];
            var g := GradedAnswers(qs, answers, 0);
            CountCorrect(g) == 3 && ComputeScore(CountCorrect(g), 4) == Percent(75)
  {
    var opts := ["a", "b", "c", "d"];
    var qs := [Question("q1", opts, Num(0), ""), Question("q2", opts, Num(1), ""),
               Question("q3", opts, Num(2), ""), Question("q4", opts, Num(3), "")];
    var answers := [SubmittedAnswer(0, Num(0)), SubmittedAnswer(1, Num(1)),
                    SubmittedAnswer(2, Num(1)), SubmittedAnswer(3, Num(3))];
    forall j | 0 <= j < 4 ensures 0 <= answers[j].questionIndex < |qs| { }
    var g := GradedAnswers(qs, answers, 0);
    GradedAnswersInOrder(qs, answers, 0, 0);
    GradedAnswersInOrder(qs, answers, 0, 1);
    GradedAnswersInOrder(qs, answers, 0, 2);
    GradedAnswersInOrder(qs, answers, 0, 3);
    assert g[0].isCorrect && g[1].isCorrect && !g[2].isCorrect && g[3].isCorrect;
    assert g[..3][..2][..1][..0] == [];
    assert CountCorrect(g[..1]) == 1 by { assert g[..1][..0] == []; }
    assert CountCorrect(g[..2]) == 2 by { assert g[..2][..1] == g[..1]; }
    assert CountCorrect(g[..3]) == 2 by { assert g[..3][..2] == g[..2]; }
    assert CountCorrect(g) == 3 by { assert g[..3] == g[..|g| - 1]; }
    assert RoundedPercent(3, 4) == 75;
  }

  // ---------------------------------------------------------------------
  // Detailed results

  /** `userAnswers.find(a => a.questionIndex === i)`. */
  function FindAnswer(ua: seq<UserAnswer>, i: int): (r: Option<UserAnswer>)
    ensures r.None? <==> forall k :: 0 <= k < |ua| ==> ua[k].questionIndex != i
    ensures r.Some? ==> r.value in ua && r.value.questionIndex == i
  {
    if ua == [] then None
    else if ua[0].questionIndex == i then Some(ua[0])
    else
      assert forall k :: 1 <= k < |ua| ==> ua[k] == ua[1..][k - 1];
      FindAnswer(ua[1..], i)
  }

  /** The answer found is the first one for that question. */
  lemma {:induction false} FindAnswerFirst(ua: seq<UserAnswer>, i: int, k: nat)
    requires k < |ua| && ua[k].questionIndex == i
    requires forall m :: 0 <= m < k ==> ua[m].questionIndex != i
    ensures FindAnswer(ua, i) == Some(ua[k])
  {
    if k > 0 {
      FindAnswerFirst(ua[1..], i, k - 1);
    }
  }

  /**
   * The row for question `i`: the answer found for it, with a falsy selected
   * answer shown as `null` (`|| null`) and a missing grade as `false`.
   */
  function Row(q: Question, i: nat, found: Option<UserAnswer>): (row: ResultRow)
    ensures row.questionIndex == i && row.options == q.options && row.correctAnswer == q.correctAnswer
    ensures found.None? ==> row.selectedAnswer == Null && !row.isCorrect
    ensures row.isCorrect ==> found.Some? && found.value.isCorrect
    ensures row.selectedAnswer != Null ==> found.Some? && row.selectedAnswer == found.value.selectedAnswer
    ensures found.Some? && !Truthy(found.value.selectedAnswer) ==> row.selectedAnswer == Null
  {
    var selected := if found.Some? && Truthy(found.value.selectedAnswer) then found.value.selectedAnswer else Null;
    var isCorrect := found.Some? && found.value.isCorrect;
    ResultRow(i, q.question, q.options, q.correctAnswer, selected, isCorrect, q.explanation)
  }

  /** `detailedResults`: one row per question, in question order. */
  function DetailedResults(qs: seq<Question>, ua: seq<UserAnswer>): (rows: seq<ResultRow>)
    ensures |rows| == |qs|
    ensures forall i :: 0 <= i < |qs| ==>
              && rows[i].questionIndex == i
              && rows[i].question == qs[i].question
              && rows[i].options == qs[i].options
              && rows[i].correctAnswer == qs[i].correctAnswer
              && rows[i].explanation == qs[i].explanation
    ensures forall i :: 0 <= i < |qs| ==>
              (rows[i].isCorrect <==> FindAnswer(ua, i).Some? && FindAnswer(ua, i).value.isCorrect)
    ensures forall i :: 0 <= i < |qs| ==>
              rows[i].selectedAnswer == (if FindAnswer(ua, i).Some? && Truthy(FindAnswer(ua, i).value.selectedAnswer)
                                         then FindAnswer(ua, i).value.selectedAnswer else Null)
  {
    seq(|qs|, i requires 0 <= i < |qs| => Row(qs[i], i, FindAnswer(ua, i)))
  }

  /** A question nobody answered shows no answer and is not correct. */
  lemma UnansweredRow(qs: seq<Question>, ua: seq<UserAnswer>, i: nat)
    requires i < |qs| && forall k :: 0 <= k < |ua| ==> ua[k].questionIndex != i
    ensures DetailedResults(qs, ua)[i].selectedAnswer == Null
    ensures !DetailedResults(qs, ua)[i].isCorrect
  {
  }

  /**
   * When the answer `find` returns for question `i` is falsy (0 or the empty
   * text), the row shows `null` as the selected answer, even when that answer
   * was graded correct.
   */
  lemma FalsyAnswerShownAsNull(qs: seq<Question>, ua: seq<UserAnswer>, i: nat, u: UserAnswer)
    requires i < |qs| && FindAnswer(ua, i) == Some(u) && !Truthy(u.selectedAnswer)
    ensures DetailedResults(qs, ua)[i].selectedAnswer == Null
    ensures DetailedResults(qs, ua)[i].isCorrect == u.isCorrect
  {
  }

  // ---------------------------------------------------------------------
  // The quiz record and its two handlers

  /**
   * A quiz as loaded from the database. `questions` and `totalQuestions` are
   * fixed when the quiz is generated; the submission sets the other three.
   */
  class Quiz {
    const questions: seq<Question>
    const totalQuestions: nat
    var userAnswers: seq<UserAnswer>
    var score: Score
    var completedAt: Option<int>

    constructor (questions: seq<Question>, totalQuestions: nat,
                 userAnswers: seq<UserAnswer>, score: Score, completedAt: Option<int>)
      ensures this.questions == questions && this.totalQuestions == totalQuestions
      ensures this.userAnswers == userAnswers && this.score == score && this.completedAt == completedAt
    {
      this.questions := questions;
      this.totalQuestions := totalQuestions;
      this.userAnswers := userAnswers;
      this.score := score;
      this.completedAt := completedAt;
    }

    /**
     * What a successful submission leaves behind: the quiz is completed, every
     * stored answer is graded against its question and the score is the
     * percentage of correct stored answers.
     */
    ghost predicate Graded()
      reads this
    {
      && completedAt.Some?
      && GradedAgainst(questions, userAnswers)
      && score == ComputeScore(CountCorrect(userAnswers), totalQuestions)
    }

    /**
     * `submitQuiz` once the quiz has been found: a body whose `answers` is
     * not an array and a quiz already completed are refused with status 400,
     * a negative question index makes the handler throw, and in each of
     * these cases the quiz is left as it was. Otherwise the graded answers,
     * the score and the completion time are stored together.
     */
    method Submit(body: SubmitBody, now: int) returns (resp: SubmitResponse)
      modifies this
      ensures body.NotAList? ==> resp == Rejected(400, NotAnArrayError) && unchanged(this)
      ensures body.AnswerList? && old(completedAt).Some? ==>
                resp == Rejected(400, AlreadyCompletedError) && unchanged(this)
      ensures body.AnswerList? && old(completedAt).None? && HasNegativeIndex(body.answers) ==>
                resp == Errored(MissingQuestionError) && unchanged(this)
      ensures body.AnswerList? && old(completedAt).None? && !HasNegativeIndex(body.answers) ==>
                var ua := GradedAnswers(questions, body.answers, now);
                && userAnswers == ua
                && score == ComputeScore(CountCorrect(ua), totalQuestions)
                && completedAt == Some(now)
                && resp == Submitted(score, CountCorrect(ua), totalQuestions, ua)
      ensures resp.Submitted? ==> Graded()
    {
      if body.NotAList? {
        return Rejected(400, NotAnArrayError);
      }
      if completedAt.Some? {
        return Rejected(400, AlreadyCompletedError);
      }
      var g := GradeAnswers(questions, body.answers, now);
      if g.Failed? {
        return Errored(g.error);
      }
      GradedAnswersSpec(questions, body.answers, now);
      var s := ComputeScore(g.correctCount, totalQuestions);
      userAnswers := g.userAnswers;
      score := s;
      completedAt := Some(now);
      resp := Submitted(s, g.correctCount, totalQuestions, g.userAnswers);
    }

    /**
     * `getQuizResults` once the quiz has been found: refused with status 400
     * until the quiz is completed, then one row per question.
     */
    function Results(): (r: ResultsResponse)
      reads this
      ensures r.NotCompleted? <==> completedAt.None?
      ensures r.NotCompleted? ==> r.statusCode == 400 && r.error == NotCompletedError
      ensures r.Ready? ==> r.score == score && r.totalQuestions == totalQuestions &&
                             Some(r.completedAt) == completedAt && |r.rows| == |questions|
      ensures r.Ready? ==> r.rows == DetailedResults(questions, userAnswers)
    {
      if completedAt.None? then NotCompleted(400, NotCompletedError)
      else Ready(score, totalQuestions, completedAt.value, DetailedResults(questions, userAnswers))
    }
  }

  /**
   * The lifecycle: a quiz that is submitted successfully can be submitted
   * again only to be refused, without change, and its results are then
   * available.
   */
  method SubmitTwice(quiz: Quiz, first: SubmitBody, second: SubmitBody, now: int, later: int)
    returns (r1: SubmitResponse, r2: SubmitResponse)
    modifies quiz
    ensures r1.Submitted? ==> r2.Rejected? && quiz.Graded() && quiz.Results().Ready?
    ensures r1.Submitted? ==> quiz.userAnswers == r1.userAnswers && quiz.score == r1.score
  {
    r1 := quiz.Submit(first, now);
    r2 := quiz.Submit(second, later);
  }
}
