/**
 * The quiz result page (frontend/mentora/src/pages/Quizzes/QuizResultPage.jsx):
 * the summary counts, the colour and message chosen for the score, and the
 * detailed review, which resolves the stored answers to option indices again
 * with its own copy of the resolver (`getIndexFromAnswer`) to decide which
 * option to mark as the correct one and which as the user's.
 */
module QuizResultView {
  import opened Values
  import opened Text
  import opened AnswerResolver
  import opened QuizGrading
  import opened ResolverExamples

  // ---------------------------------------------------------------------
  // The page's resolver

  /**
   * `getIndexFromAnswer`. It follows the backend rules except for a code
   * `O<n>`: the page returns n - 1 at once, without checking that the quiz
   * has an n-th option.
   */
  function IndexFromAnswer(ans: Answer, opts: seq<string>): (r: int)
    ensures r >= -1
    ensures !(ans.Text? && IsOCode(Trim(ans.s))) ==> r < |opts|
    ensures ans.Text? && IsOCode(Trim(ans.s)) ==> r + 1 == DigitsValue(Trim(ans.s)[1..])
  {
    match ans
    case Num(k) =>
      if 0 <= k < |opts| then k
      else if 0 <= k - 1 < |opts| then k - 1
      else -1
    case Text(s) =>
      var t := Trim(s);
      if IsOCode(t) then OCodeIndex(t) else MatchText(t, opts)
    case Null => -1
    case Undefined => -1
  }

  /** The page and the backend agree on every answer that is not a code `O<n>`. */
  lemma AgreeUnlessCode(ans: Answer, opts: seq<string>)
    requires !(ans.Text? && IsOCode(Trim(ans.s)))
    ensures IndexFromAnswer(ans, opts) == ResolveIndex(ans, opts)
  {
  }

  /** They agree on a code that names an existing option. */
  lemma AgreeOnCodeInRange(s: string, opts: seq<string>)
    requires IsOCode(Trim(s)) && 0 <= OCodeIndex(Trim(s)) < |opts|
    ensures IndexFromAnswer(Text(s), opts) == ResolveIndex(Text(s), opts) == OCodeIndex(Trim(s))
  {
  }

  /**
   * On a code naming no option they part: the page keeps n - 1, which is -1
   * or past the last option, while the backend goes on to the text rules. The
   * two differ unless both end unresolved.
   */
  lemma DisagreeOnCodeOutOfRange(s: string, opts: seq<string>)
    requires IsOCode(Trim(s)) && !(0 <= OCodeIndex(Trim(s)) < |opts|)
    ensures var page := IndexFromAnswer(Text(s), opts);
            page == OCodeIndex(Trim(s)) && (page == -1 || page >= |opts|)
    ensures IndexFromAnswer(Text(s), opts) != ResolveIndex(Text(s), opts) <==>
              OCodeIndex(Trim(s)) >= |opts| || ResolveIndex(Text(s), opts) != Unresolved
  {
  }

  /** "O9" is its own trim and the code of option 9. */
  lemma CodeNine()
    ensures Trim("O9") == "O9" && IsOCode("O9") && OCodeIndex("O9") == 8
  {
    TrimOfTrimmed("O9");
    assert "O9"[1..] == "9";
    assert DigitsValue("9") == 9 by { assert "9"[..0] == []; }
  }

  /** With the options Paris, London and Rome, "O9" is 8 on the page and unresolved on the backend. */
  lemma CodeNineOfThree()
    ensures IndexFromAnswer(Text("O9"), Cities) == 8
    ensures ResolveIndex(Text("O9"), Cities) == Unresolved
  {
    CodeNine();
    ExampleCodeOutOfRange();
  }

  // ---------------------------------------------------------------------
  // The summary

  /** JavaScript's `score >= k` for the score value: NaN compares false, Infinity above every bound. */
  function AtLeast(score: Score, k: int): (at: bool)
    ensures !at <==> score.NaN? || (score.Percent? && score.value < k)
  {
    match score
    case Percent(v) => v >= k
    case NaN => false
    case Infinity => true
  }

  const Emerald := "from-emerald-500 to-teal-500"
  const Amber := "from-amber-500 to-orange-500"
  const Rose := "from-rose-500 to-red-500"

  /** `getScoreColor`: 80 and above, 60 to 79, and below 60 (or NaN). */
  function ScoreColor(score: Score): (c: string)
    ensures c == Emerald <==> AtLeast(score, 80)
    ensures c == Amber <==> AtLeast(score, 60) && !AtLeast(score, 80)
    ensures c == Rose <==> !AtLeast(score, 60)
  {
    if AtLeast(score, 80) then Emerald
    else if AtLeast(score, 60) then Amber
    else Rose
  }

  const CrazyGood := "You are Crazy Good! \U{1F929}"
  const Excellent := "Excellent Work! Keep it up! \U{1F60E}"
  const Noice := "Noice! You can do better! \U{1F44C}"
  const NotBad := "Not Bad! \U{1F642}"
  const GiveUp := "You good for nothing. Piece of shit! Just Give Up \U{1F921}"

  /** `getScoreMessage`: bands at 90, 80, 70 and 60. */
  function ScoreMessage(score: Score): (m: string)
    ensures m in {CrazyGood, Excellent, Noice, NotBad, GiveUp}
    ensures m == CrazyGood <==> AtLeast(score, 90)
    ensures m == Excellent <==> AtLeast(score, 80) && !AtLeast(score, 90)
    ensures m == Noice <==> AtLeast(score, 70) && !AtLeast(score, 80)
    ensures m == NotBad <==> AtLeast(score, 60) && !AtLeast(score, 70)
    ensures m == GiveUp <==> !AtLeast(score, 60)
  {
    if AtLeast(score, 90) then CrazyGood
    else if AtLeast(score, 80) then Excellent
    else if AtLeast(score, 70) then Noice
    else if AtLeast(score, 60) then NotBad
    else GiveUp
  }

  /** How good a colour is: rose 0, amber 1, emerald 2. */
  function ColorRank(c: string): nat
  {
    if c == Emerald then 2 else if c == Amber then 1 else 0
  }

  /** How good a message is, from 0 for the last to 4 for the first. */
  function MessageRank(m: string): nat
  {
    if m == CrazyGood then 4 else if m == Excellent then 3
    else if m == Noice then 2 else if m == NotBad then 1 else 0
  }

  /** A higher percentage never gets a worse colour or a worse message. */
  lemma ScoreBandsMonotone(a: int, b: int)
    requires a <= b
    ensures ColorRank(ScoreColor(Percent(a))) <= ColorRank(ScoreColor(Percent(b)))
    ensures MessageRank(ScoreMessage(Percent(a))) <= MessageRank(ScoreMessage(Percent(b)))
  {
  }

  /**
   * The colour and the message agree: the emerald scores are those with one
   * of the two best messages, the amber ones those with the middle two, and
   * rose goes with the last message.
   */
  lemma ColorMatchesMessage(score: Score)
    ensures ScoreColor(score) == Emerald <==> MessageRank(ScoreMessage(score)) >= 3
    ensures ScoreColor(score) == Amber <==> MessageRank(ScoreMessage(score)) in {1, 2}
    ensures ScoreColor(score) == Rose <==> ScoreMessage(score) == GiveUp
  {
  }

  /** A NaN score (no questions, none correct) shows as the worst band. */
  lemma NaNScoreIsWorst()
    ensures ScoreColor(NaN) == Rose && ScoreMessage(NaN) == GiveUp
  {
  }

  /** The three summary counts. */
  datatype Summary = Summary(totalQuestions: nat, correctAnswers: nat, incorrectAnswers: int)

  /** `detailedResults.filter(r => r.isCorrect).length`. */
  function CorrectRows(rows: seq<ResultRow>): nat
  {
    if rows == [] then 0
    else CorrectRows(rows[..|rows| - 1]) + (if rows[|rows| - 1].isCorrect then 1 else 0)
  }

  /** The rows marked correct, by position. */
  function CorrectRowSet(rows: seq<ResultRow>): set<int>
  {
    set i | 0 <= i < |rows| && rows[i].isCorrect
  }

  /** Counting the correct rows is taking the size of the set of their positions. */
  lemma {:induction false} CorrectRowsIsSetSize(rows: seq<ResultRow>)
    ensures CorrectRows(rows) == |CorrectRowSet(rows)|
  {
    if rows != [] {
      var init := rows[..|rows| - 1];
      CorrectRowsIsSetSize(init);
      var last := |rows| - 1;
      assert forall i :: 0 <= i < |init| ==> init[i] == rows[i];
      if rows[last].isCorrect {
        assert CorrectRowSet(rows) == CorrectRowSet(init) + {last};
      } else {
        assert CorrectRowSet(rows) == CorrectRowSet(init);
      }
    }
  }

  /** The summary cards: all rows, the correct rows and the rest. */
  function Summarize(rows: seq<ResultRow>): (s: Summary)
    ensures s.totalQuestions == |rows|
    ensures s.correctAnswers == |CorrectRowSet(rows)|
    ensures 0 <= s.incorrectAnswers && s.correctAnswers + s.incorrectAnswers == s.totalQuestions
  {
    CorrectRowsIsSetSize(rows);
    assert CorrectRowSet(rows) <= Below(|rows|);
    BelowSize(|rows|);
    SubsetSize(CorrectRowSet(rows), Below(|rows|));
    var correct := CorrectRows(rows);
    Summary(|rows|, correct, |rows| - correct)
  }

  /** The questions of the stored answers graded correct. */
  function CorrectIndexSet(ua: seq<UserAnswer>): set<int>
  {
    set k | 0 <= k < |ua| && ua[k].isCorrect :: ua[k].questionIndex
  }

  lemma {:induction false} CorrectIndexSetSize(ua: seq<UserAnswer>)
    requires DistinctStored(ua)
    ensures |CorrectIndexSet(ua)| == CountCorrect(ua)
  {
    if ua != [] {
      var init := ua[..|ua| - 1];
      var last := ua[|ua| - 1];
      assert forall k :: 0 <= k < |init| ==> init[k] == ua[k];
      CorrectIndexSetSize(init);
      if last.isCorrect {
        assert CorrectIndexSet(ua) == CorrectIndexSet(init) + {last.questionIndex};
        assert last.questionIndex !in CorrectIndexSet(init);
      } else {
        assert CorrectIndexSet(ua) == CorrectIndexSet(init);
      }
    }
  }

  /**
   * When every stored answer names an existing question and no question is
   * answered twice, the page's count of correct answers is the
   * `correctCount` the submission reported.
   */
  lemma SummaryMatchesSubmission(qs: seq<Question>, ua: seq<UserAnswer>)
    requires DistinctStored(ua)
    requires forall k :: 0 <= k < |ua| ==> 0 <= ua[k].questionIndex < |qs|
    ensures Summarize(DetailedResults(qs, ua)).correctAnswers == CountCorrect(ua)
    ensures Summarize(DetailedResults(qs, ua)).totalQuestions == |qs|
  {
    var rows := DetailedResults(qs, ua);
    forall i ensures i in CorrectRowSet(rows) <==> i in CorrectIndexSet(ua)
    {
      RowCorrectIff(qs, ua, i);
    }
    assert CorrectRowSet(rows) == CorrectIndexSet(ua);
    CorrectIndexSetSize(ua);
  }

  lemma RowCorrectIff(qs: seq<Question>, ua: seq<UserAnswer>, i: int)
    requires DistinctStored(ua)
    requires forall k :: 0 <= k < |ua| ==> 0 <= ua[k].questionIndex < |qs|
    ensures i in CorrectRowSet(DetailedResults(qs, ua)) <==> i in CorrectIndexSet(ua)
  {
    var rows := DetailedResults(qs, ua);
    if i in CorrectIndexSet(ua) {
      var k :| 0 <= k < |ua| && ua[k].isCorrect && ua[k].questionIndex == i;
      FindAnswerFirst(ua, i, k);
      assert rows[i].isCorrect;
    }
    if i in CorrectRowSet(rows) {
      var found := FindAnswer(ua, i);
      var k :| 0 <= k < |ua| && ua[k] == found.value;
    }
  }

  /**
   * With a question answered twice the counts part: the only question,
   * answered correctly twice, is one correct row but two correct answers.
   */
  lemma SummaryWithDuplicates()
    ensures var u := UserAnswer(0, Num(0), true, 0);
            var qs := [Question("q", ["a"], Num(0), "")];
            Summarize(DetailedResults(qs, [u, u])).correctAnswers == 1 && CountCorrect([u, u]) == 2
  {
    var u := UserAnswer(0, Num(0), true, 0);
    var qs := [Question("q", ["a"], Num(0), "")];
    var rows := DetailedResults(qs, [u, u]);
    assert CorrectRowSet(rows) == {0};
    assert [u, u][..1] == [u] && [u][..0] == [];
  }

  // ---------------------------------------------------------------------
  // The detailed review

  /** How one option is drawn. */
  datatype OptionFlags = OptionFlags(isCorrectOption: bool, isUserAnswer: bool, isWrongAnswer: bool)

  /**
   * The flags of every option of a row: the option the stored correct answer
   * resolves to, the one the user's answer resolves to, and the user's
   * option drawn as wrong when the row is not correct.
   */
  function ReviewOptions(row: ResultRow): (flags: seq<OptionFlags>)
    ensures |flags| == |row.options|
    ensures forall i :: 0 <= i < |flags| ==>
              && (flags[i].isCorrectOption <==> i == IndexFromAnswer(row.correctAnswer, row.options))
              && (flags[i].isUserAnswer <==> i == IndexFromAnswer(row.selectedAnswer, row.options))
              && (flags[i].isWrongAnswer <==> flags[i].isUserAnswer && !row.isCorrect)
  {
    var correctIdx := IndexFromAnswer(row.correctAnswer, row.options);
    var userIdx := IndexFromAnswer(row.selectedAnswer, row.options);
    seq(|row.options|, i requires 0 <= i < |row.options| =>
      OptionFlags(i == correctIdx, i == userIdx, i == userIdx && !row.isCorrect))
  }

  /** At most one option is marked correct, at most one as the user's, at most one wrong. */
  lemma AtMostOneMarked(row: ResultRow, i: nat, j: nat)
    requires i < |row.options| && j < |row.options|
    ensures var f := ReviewOptions(row);
            && (f[i].isCorrectOption && f[j].isCorrectOption ==> i == j)
            && (f[i].isUserAnswer && f[j].isUserAnswer ==> i == j)
            && (f[i].isWrongAnswer && f[j].isWrongAnswer ==> i == j)
  {
  }

  /** A correct row draws no option as wrong. */
  lemma CorrectRowHasNoWrongOption(row: ResultRow)
    requires row.isCorrect
    ensures forall f :: f in ReviewOptions(row) ==> !f.isWrongAnswer
  {
  }

  /** A user's answer resolving to no option of the row marks no option as theirs. */
  lemma UnresolvedAnswerMarksNothing(row: ResultRow)
    requires var u := IndexFromAnswer(row.selectedAnswer, row.options); u == -1 || u >= |row.options|
    ensures forall f :: f in ReviewOptions(row) ==> !f.isUserAnswer && !f.isWrongAnswer
  {
  }

  /**
   * For a row the backend graded, whose answers are not codes and both
   * resolve: the row is correct exactly when the option drawn as the user's
   * is the option drawn as correct.
   */
  lemma ReviewMatchesGrade(row: ResultRow)
    requires !(row.selectedAnswer.Text? && IsOCode(Trim(row.selectedAnswer.s)))
    requires !(row.correctAnswer.Text? && IsOCode(Trim(row.correctAnswer.s)))
    requires ResolveIndex(row.selectedAnswer, row.options) != Unresolved
    requires ResolveIndex(row.correctAnswer, row.options) != Unresolved
    requires row.isCorrect == IsCorrect(row.selectedAnswer, row.correctAnswer, row.options)
    ensures var u := ResolveIndex(row.selectedAnswer, row.options);
            var f := ReviewOptions(row)[u];
            row.isCorrect <==> f.isUserAnswer && f.isCorrectOption
    ensures var u := ResolveIndex(row.selectedAnswer, row.options);
            !row.isCorrect <==> ReviewOptions(row)[u].isWrongAnswer
  {
    AgreeUnlessCode(row.selectedAnswer, row.options);
    AgreeUnlessCode(row.correctAnswer, row.options);
  }
}
