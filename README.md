# Mentora: quiz grading, quiz review and flashcards, modelled in Dafny

Mentora is a study application. A user uploads a document and the
application generates quizzes and flashcard sets from it. This project models
the part of it that makes decisions on data:

- **Answer resolution and grading** (`backend/controllers/quizController.js`).
  `submitQuiz` turns each submitted answer and each stored correct answer
  into a 0-based option index. An answer may be given as a number (0-based,
  else 1-based), as a code `O<n>`, as the option text (exactly, else ignoring
  case and surrounding whitespace), or as text with a number inside it.
  Submitting grades every answer whose question exists, counts the correct
  ones and stores the answers, the score `Math.round(correct / total * 100)`
  and the completion time. A completed quiz refuses any further submission.
  `getQuizResults` builds one row per question.
- **The quiz result page** (`QuizResultPage.jsx`). It shows summary counts,
  and a colour and a message for the score. Its detailed review uses its own
  copy of the resolver to mark the correct option and the user's option.
- **The flashcard carousel** (`FlashcardPage.jsx`). It holds the chosen set,
  its cards, the index of the card shown and whether the card is flipped. It
  moves forward and back cyclically and stars cards.
- **The flashcard set card** (`FlashcardSetCard.jsx`). It shows how many cards
  a set has, how many were reviewed, the rounded progress percentage, and
  where "study now" leads.
- **The error middleware** (`backend/middleware/errorHandler.js`). It chooses
  an HTTP status and a message for an error by a fixed sequence of rules, and
  the last rule that matches wins.

Modules, one per file:

| file | module | form |
|---|---|---|
| `values.dfy` | `Values` | JavaScript answer values, truthiness, `Math.round` of a percentage, the score (including `NaN` and `Infinity`) |
| `text.dfy` | `Text` | `trim`, ASCII `toLowerCase`, `/\d+/` and `parseInt` on digits |
| `resolver.dfy` | `AnswerResolver` | the backend resolver and the answer comparison (pure) |
| `resolver_examples.dfy` | `ResolverExamples` | worked resolver examples |
| `quiz.dfy` | `QuizGrading` | the grading loop as a method, the quiz record as a class with `Submit` and `Results` |
| `quiz_result_page.dfy` | `QuizResultView` | the page's resolver, score bands, counts and option marks (pure) |
| `flashcard_set_card.dfy` | `FlashcardSetSummary` | cards, sets, counts, progress, labels, study route (pure) |
| `flashcard_page.dfy` | `FlashcardViewer` | the carousel as a class whose methods update its fields |
| `error_handler.dfy` | `ErrorHandler` | the handler as a method of sequential `if`s, proved equal to a last-match rule list |

Facts the proofs establish, in the system's terms:

- A number is read 0-based first, then 1-based. With three options, `1` is
  the second option. Only the number equal to the option count is read
  1-based.
- A code `O<n>` naming no option does not end the backend's search. It still
  resolves when an option is spelled like the code, exactly or ignoring case.
  Otherwise it stays unresolved.
- The result page resolves such a code to `n - 1` without a range check. It
  therefore disagrees with the backend exactly when the code's index is past
  the last option, or when the backend found a match. On every other answer
  the two resolvers agree.
- The score lies in [0, 100] when no question is answered twice. Answering
  the only question correctly twice scores 200.
- A quiz with no questions scores `NaN` (0/0). The page shows that score in
  the lowest band.
- Flashcard progress is 100 % exactly when every card was reviewed, but only
  for sets of fewer than 200 cards. With 200 cards or more, one unreviewed
  card still rounds to 100 %. With more than 200 cards, one reviewed card
  shows a badge reading 0 %.

## Model

| member | source | states |
|---|---|---|
| `Values.RoundedPercent` | backend/controllers/quizController.js:150 | the exact-rational reading of `Math.round(part / whole * 100)`: the integer r with r ≤ 100·part/whole + 1/2 < r + 1 |
| `Values.RoundedPercentMonotone` | backend/controllers/quizController.js:150 | more correct answers never give a lower percentage |
| `Values.RoundedPercentEnds` | backend/controllers/quizController.js:150 | none correct is 0 %, all correct is exactly 100 % |
| `Values.RoundedPercentAtMost100` | backend/controllers/quizController.js:150 | a part no larger than the whole gives at most 100 |
| `Values.RoundedPercentIs100` | frontend/mentora/src/pages/Flashcards/FlashcardSetCard.jsx:19-20 | the rounded percentage is 100 iff part ≥ 99.5 % of the whole; for wholes under 200, iff part = whole |
| `Values.ComputeScore` | backend/controllers/quizController.js:150 | the score is a percentage iff there are questions, and then the exact-rational rounded percentage of correct over total; 0/0 is NaN and a positive count over 0 is Infinity; at most 100 when correct ≤ total |
| `Values.Truthy` | backend/controllers/quizController.js:213-214 | the falsy answers are exactly 0, the empty text, null and undefined |
| `Text.TrimStartSpec` | backend/controllers/quizController.js:100 | leading trim drops only whitespace, all of it, and keeps a suffix |
| `Text.TrimEndSpec` | backend/controllers/quizController.js:100 | trailing trim drops only whitespace, all of it, and keeps a prefix |
| `Text.TrimSpec` | backend/controllers/quizController.js:100 | `trim()` returns the slice between leading and trailing whitespace and neither starts nor ends with whitespace |
| `Text.Trim` | backend/controllers/quizController.js:100 | `trim()` never lengthens the text and leaves it neither starting nor ending with whitespace |
| `Text.TrimOfTrimmed` | backend/controllers/quizController.js:100 | text without surrounding whitespace is its own trim |
| `Text.TrimIdempotent` | backend/controllers/quizController.js:100 | trimming twice is trimming once |
| `Text.ToLowerSpec` | backend/controllers/quizController.js:112 | lower-casing maps each character and leaves no upper-case ASCII letter |
| `Text.ToLowerIdempotent` | backend/controllers/quizController.js:112 | lower-casing twice is lower-casing once |
| `Text.ToLower` | backend/controllers/quizController.js:112 | lower-casing keeps the length and maps every character through the ASCII lower-case mapping |
| `Text.LeadingDigitsSpec` | backend/controllers/quizController.js:116 | the leading digit run is the longest all-digit prefix |
| `Text.FirstDigitRunSpec` | backend/controllers/quizController.js:116-118 | `/\d+/` fails iff there is no digit; otherwise it matches the maximal digit run starting at the first digit |
| `Text.FirstDigitRunAfterLetter` | backend/controllers/quizController.js:102-104 | in a code `O<digits>` the first digit run is the code's number |
| `Text.LeadingDigitsOfDigits` | backend/controllers/quizController.js:116 | an all-digit text is its own leading run |
| `Text.DigitsValue` | backend/controllers/quizController.js:104 | `parseInt` of n decimal digits is a natural number below 10^n |
| `Text.FirstNumber` | backend/controllers/quizController.js:116-118 | there is a first number exactly when the text contains a digit |
| `AnswerResolver.FindIndex` | backend/controllers/quizController.js:108 | `findIndex` returns the smallest index satisfying the test, or -1 iff none does |
| `AnswerResolver.ExactIndex` | backend/controllers/quizController.js:108-109 | -1 iff the text is not an option, else the first option equal to it |
| `AnswerResolver.CaseInsensitiveIndex` | backend/controllers/quizController.js:111-114 | -1 iff no option equals the text ignoring case and surrounding whitespace, else the first that does |
| `AnswerResolver.SameIgnoringCase` | backend/controllers/quizController.js:112 | an option equal to an already trimmed answer matches ignoring case; a matching option has the answer's length once trimmed |
| `AnswerResolver.IsOCode` | backend/controllers/quizController.js:102 | a code `O<digits>` has digits after its letter, and its number is also the first number written in it |
| `AnswerResolver.OCodeIndex` | backend/controllers/quizController.js:102-104 | the code's number minus one is at least -1 |
| `AnswerResolver.EmbeddedNumberIndex` | backend/controllers/quizController.js:116-120 | the first number v in the text gives v - 1 when 1 ≤ v ≤ option count, and -1 when there is no number or no such option |
| `AnswerResolver.MatchText` | backend/controllers/quizController.js:108-120 | an exact match wins, then a match ignoring case, then the embedded number; the result is an option or -1 |
| `AnswerResolver.ResolveText` | backend/controllers/quizController.js:99-121 | text resolves to an option index or -1 |
| `AnswerResolver.ResolveIndex` | backend/controllers/quizController.js:93-123 | every answer resolves to an option index or -1 |
| `AnswerResolver.ResolveCanonicalIndex` | backend/controllers/quizController.js:96 | a 0-based index in range is returned unchanged |
| `AnswerResolver.ResolveNumber` | backend/controllers/quizController.js:95-98 | a number resolves iff 0 ≤ k ≤ option count and options exist; only k = count is read 1-based |
| `AnswerResolver.ResolveOCodeInRange` | backend/controllers/quizController.js:102-106 | a code naming an existing option resolves to it |
| `AnswerResolver.ResolveOCodeOutOfRange` | backend/controllers/quizController.js:102-121 | a code naming no option falls to the exact, then the case-insensitive match, else -1 |
| `AnswerResolver.ResolveExactMatch` | backend/controllers/quizController.js:108-109 | non-code text resolves to the first option equal to it |
| `AnswerResolver.ResolveCaseInsensitiveMatch` | backend/controllers/quizController.js:111-115 | without an exact match, text resolves to the first option equal ignoring case and whitespace |
| `AnswerResolver.ResolveEmbeddedNumber` | backend/controllers/quizController.js:116-122 | without a code or text match, the first embedded number picks its 1-based option, else -1 |
| `AnswerResolver.IsCorrect` | backend/controllers/quizController.js:131-136 | a correct answer resolves like the stored answer; the stored answer itself is correct; when both resolve, correct iff they name the same option; when either stays unresolved, correct iff the two answers are identical |
| `AnswerResolver.IsCorrectSymmetric` | backend/controllers/quizController.js:134-136 | grading does not depend on which answer is the stored one |
| `AnswerResolver.IsCorrectReflexive` | backend/controllers/quizController.js:134-136 | the stored answer submitted verbatim is correct |
| `AnswerResolver.IsCorrectByIndex` | backend/controllers/quizController.js:131-136 | when both resolve, correctness depends only on the resolved indices and is their equality |
| `ResolverExamples.ExampleCode` | backend/controllers/quizController.js:102-106 | "O2" names the second of Paris, London, Rome |
| `ResolverExamples.ExampleCaseInsensitive` | backend/controllers/quizController.js:111-115 | " london " resolves to London |
| `ResolverExamples.ExampleNumbers` | backend/controllers/quizController.js:95-98 | 1 is London, 3 is Rome, 4 is unresolved |
| `ResolverExamples.ExampleEmbedded` | backend/controllers/quizController.js:116-120 | "Option 3" resolves to Rome |
| `ResolverExamples.ExampleUnresolved` | backend/controllers/quizController.js:122 | "Nowhere" is unresolved |
| `ResolverExamples.ExampleCodeOutOfRange` | backend/controllers/quizController.js:102-122 | "O9" with three options is unresolved |
| `QuizGrading.Mark` | backend/controllers/quizController.js:131-145 | a graded answer keeps the submitted index and answer; its mark is `IsCorrect` of the submitted and stored answers, so correct only when it resolves like the stored answer, and correct when it is the stored answer |
| `QuizGrading.GradedAnswers` | backend/controllers/quizController.js:125-147 | no more answers are stored than submitted, and each stored one names an existing question |
| `QuizGrading.CountCorrect` | backend/controllers/quizController.js:138 | the correct count never exceeds the number of stored answers |
| `QuizGrading.CountCorrectBounded` | backend/controllers/quizController.js:138 | the correct count is at most the answer count; equal iff all correct, 0 iff none |
| `QuizGrading.GradedAnswersSpec` | backend/controllers/quizController.js:125-147 | stored answers are at most the submitted ones, each graded against its existing question; with every index in range none is dropped |
| `QuizGrading.GradedAnswersInOrder` | backend/controllers/quizController.js:125-147 | with all indices in range, the k-th stored answer grades the k-th submitted one |
| `QuizGrading.GradedAnswersSkipsUnknown` | backend/controllers/quizController.js:128 | answers naming no existing question leave nothing |
| `QuizGrading.GradedAnswersSingle` | backend/controllers/quizController.js:128-146 | one answer is graded when its question exists and skipped otherwise |
| `QuizGrading.GradedAnswersAppend` | backend/controllers/quizController.js:125-147 | grading a submission in two consecutive parts gives the first part's stored answers followed by the second's, so the submission order is kept for any mix of indices |
| `QuizGrading.InRangeKept` | backend/controllers/quizController.js:128-145 | an answer naming an existing question is stored, graded, whatever the other answers are |
| `QuizGrading.GradeAnswers` | backend/controllers/quizController.js:125-147 | the loop fails iff some index is negative; otherwise it returns the graded answers and their correct count |
| `QuizGrading.GradedIndicesSubmitted` | backend/controllers/quizController.js:140-145 | every stored index was submitted |
| `QuizGrading.GradedDistinct` | backend/controllers/quizController.js:125-147 | distinct submitted indices give distinct stored indices |
| `QuizGrading.DistinctStoredBounded` | backend/controllers/quizController.js:128 | distinct stored answers to existing questions are at most the question count |
| `QuizGrading.ScoreWithinPercent` | backend/controllers/quizController.js:150 | without repeated questions the score is a percentage in [0, 100] |
| `QuizGrading.DuplicateAnswersScore200` | backend/controllers/quizController.js:125-150 | answering the only question correctly twice scores 200 |
| `QuizGrading.GradingScenario` | backend/controllers/quizController.js:125-150 | four questions answered 0, 1, 1, 3 give 3 correct and 75 |
| `QuizGrading.FindAnswer` | backend/controllers/quizController.js:204-206 | `find` returns none iff no answer has the index, else an answer with it |
| `QuizGrading.FindAnswerFirst` | backend/controllers/quizController.js:204-206 | `find` returns the first answer with the index |
| `QuizGrading.Row` | backend/controllers/quizController.js:207-215 | a row carries its index, options and correct answer; an unanswered question shows null and is not correct; a correct row has a correct stored answer; a shown answer is the stored one; a falsy stored answer shows null |
| `QuizGrading.DetailedResults` | backend/controllers/quizController.js:203-217 | one row per question in order, with its fields; correct iff the found answer is; a falsy answer shown as null |
| `QuizGrading.UnansweredRow` | backend/controllers/quizController.js:213-214 | an unanswered question shows null and is not correct |
| `QuizGrading.FalsyAnswerShownAsNull` | backend/controllers/quizController.js:204-214 | when the answer `find` returns for a question is 0 or "", the row shows null, keeping that answer's grade |
| `QuizGrading.Quiz.constructor` | backend/controllers/quizController.js:67-70 | the loaded quiz holds the given fields |
| `QuizGrading.Quiz.Submit` | backend/controllers/quizController.js:55-173 | refuses a non-array (400) and a completed quiz (400), throws on a negative index, each time unchanged; otherwise stores answers, score and time together |
| `QuizGrading.Quiz.Results` | backend/controllers/quizController.js:194-233 | 400 "Quiz not completed" iff not completed; otherwise score, total, time and the detailed results, one row per question |
| `QuizGrading.SubmitTwice` | backend/controllers/quizController.js:80-86 | after a successful submission a second one is refused and the results are ready |
| `QuizResultView.IndexFromAnswer` | frontend/mentora/src/pages/Quizzes/QuizResultPage.jsx:156-195 | -1 or an option index, except for a code `O<n>`, which gives n - 1 unchecked |
| `QuizResultView.AgreeUnlessCode` | frontend/mentora/src/pages/Quizzes/QuizResultPage.jsx:157-194 | the page and backend resolvers agree on every non-code answer |
| `QuizResultView.AgreeOnCodeInRange` | frontend/mentora/src/pages/Quizzes/QuizResultPage.jsx:171-174 | they agree on a code naming an existing option |
| `QuizResultView.DisagreeOnCodeOutOfRange` | frontend/mentora/src/pages/Quizzes/QuizResultPage.jsx:171-174 | on another code the page gives n - 1 (-1 or past the end); they differ iff that is past the end or the backend resolved |
| `QuizResultView.CodeNine` | frontend/mentora/src/pages/Quizzes/QuizResultPage.jsx:169-172 | "O9" is trimmed, a code, and names index 8 |
| `QuizResultView.CodeNineOfThree` | frontend/mentora/src/pages/Quizzes/QuizResultPage.jsx:171-174 | with three options "O9" is 8 on the page and -1 on the backend |
| `QuizResultView.AtLeast` | frontend/mentora/src/pages/Quizzes/QuizResultPage.jsx:64-76 | `score >= k` fails exactly for NaN and for a percentage below k; Infinity passes every bound |
| `QuizResultView.ScoreColor` | frontend/mentora/src/pages/Quizzes/QuizResultPage.jsx:64-68 | emerald iff ≥ 80, amber iff 60 to 79, rose iff below 60 or NaN |
| `QuizResultView.ScoreMessage` | frontend/mentora/src/pages/Quizzes/QuizResultPage.jsx:70-76 | one of five messages, each exactly on its band (≥ 90, 80-89, 70-79, 60-69, else) |
| `QuizResultView.ScoreBandsMonotone` | frontend/mentora/src/pages/Quizzes/QuizResultPage.jsx:64-76 | a higher score never gets a worse colour or message |
| `QuizResultView.ColorMatchesMessage` | frontend/mentora/src/pages/Quizzes/QuizResultPage.jsx:64-76 | emerald goes with the two best messages, amber with the middle two, rose with the last |
| `QuizResultView.NaNScoreIsWorst` | frontend/mentora/src/pages/Quizzes/QuizResultPage.jsx:64-76 | a NaN score shows rose and the last message |
| `QuizResultView.CorrectRowsIsSetSize` | frontend/mentora/src/pages/Quizzes/QuizResultPage.jsx:61 | the filtered count is the number of correct row positions |
| `QuizResultView.Summarize` | frontend/mentora/src/pages/Quizzes/QuizResultPage.jsx:60-62 | total is the row count, correct the correct rows, incorrect ≥ 0, correct + incorrect = total |
| `QuizResultView.CorrectIndexSetSize` | backend/controllers/quizController.js:138 | with distinct indices, the correct answers name as many questions as the correct count |
| `QuizResultView.RowCorrectIff` | backend/controllers/quizController.js:203-217 | with distinct indices in range, a row is correct iff its question has a correct stored answer |
| `QuizResultView.SummaryMatchesSubmission` | frontend/mentora/src/pages/Quizzes/QuizResultPage.jsx:60-62 | with distinct indices in range, the page's correct count equals the submission's `correctCount` |
| `QuizResultView.SummaryWithDuplicates` | frontend/mentora/src/pages/Quizzes/QuizResultPage.jsx:61 | with the question answered twice the page counts 1 correct while the submission counted 2 |
| `QuizResultView.ReviewOptions` | frontend/mentora/src/pages/Quizzes/QuizResultPage.jsx:240-243 | one mark per option: correct iff it is the correct answer's index, the user's iff the answer's index, wrong iff the user's and the row is wrong |
| `QuizResultView.AtMostOneMarked` | frontend/mentora/src/pages/Quizzes/QuizResultPage.jsx:241-243 | at most one option is marked correct, one as the user's, one wrong |
| `QuizResultView.CorrectRowHasNoWrongOption` | frontend/mentora/src/pages/Quizzes/QuizResultPage.jsx:243 | a correct row marks no option wrong |
| `QuizResultView.UnresolvedAnswerMarksNothing` | frontend/mentora/src/pages/Quizzes/QuizResultPage.jsx:242-243 | an answer naming no option marks no option as the user's |
| `QuizResultView.ReviewMatchesGrade` | frontend/mentora/src/pages/Quizzes/QuizResultPage.jsx:197-243 | for non-code answers that resolve, a row is correct iff the user's option is the correct option, and wrong iff it is marked wrong |
| `FlashcardSetSummary.ReviewedCountSpec` | frontend/mentora/src/pages/Flashcards/FlashcardSetCard.jsx:15-18 | reviewed ≤ total; equal iff all reviewed, 0 iff none |
| `FlashcardSetSummary.ReviewedCountPointwise` | frontend/mentora/src/pages/Flashcards/FlashcardSetCard.jsx:15-17 | the count depends only on which cards have `lastReviewed` |
| `FlashcardSetSummary.ReviewedCount` | frontend/mentora/src/pages/Flashcards/FlashcardSetCard.jsx:15-17 | the reviewed count never exceeds the card count |
| `FlashcardSetSummary.Progress` | frontend/mentora/src/pages/Flashcards/FlashcardSetCard.jsx:19-20 | 0 without cards, else the exact-rational reading of the reviewed percentage rounded half up; never above 100 |
| `FlashcardSetSummary.ProgressEnds` | frontend/mentora/src/pages/Flashcards/FlashcardSetCard.jsx:19-20 | all reviewed gives 100, none reviewed gives 0 |
| `FlashcardSetSummary.ProgressFullMeansAllReviewed` | frontend/mentora/src/pages/Flashcards/FlashcardSetCard.jsx:19-20 | for sets of 1 to 199 cards, 100 iff every card was reviewed |
| `FlashcardSetSummary.ProgressFullWithOneUnreviewed` | frontend/mentora/src/pages/Flashcards/FlashcardSetCard.jsx:19-20 | from 200 cards, all but one reviewed shows 100 although a card is unreviewed |
| `FlashcardSetSummary.CardLabel` | frontend/mentora/src/pages/Flashcards/FlashcardSetCard.jsx:64 | "card" iff exactly one card, else "cards" |
| `FlashcardSetSummary.ShowBadge` | frontend/mentora/src/pages/Flashcards/FlashcardSetCard.jsx:67 | the badge shows iff some card has been reviewed |
| `FlashcardSetSummary.ShowProgressBar` | frontend/mentora/src/pages/Flashcards/FlashcardSetCard.jsx:81 | the bar shows iff the set has cards, and without it the progress reads 0 |
| `FlashcardSetSummary.NoCardsArray` | frontend/mentora/src/pages/Flashcards/FlashcardSetCard.jsx:14-20 | a set whose `cards` is missing or not an array shows progress 0, no badge, no bar and the plural label |
| `FlashcardSetSummary.BadgeReading` | frontend/mentora/src/pages/Flashcards/FlashcardSetCard.jsx:67-81 | a shown badge has a progress bar beside it; it reads ≥ 1 % up to 200 cards and can read 0 % above |
| `FlashcardSetSummary.StudyPath` | frontend/mentora/src/pages/Flashcards/FlashcardSetCard.jsx:11 | the route is `/documents/<id>/flashcards` |
| `FlashcardSetSummary.StudyPathInjective` | frontend/mentora/src/pages/Flashcards/FlashcardSetCard.jsx:11 | different documents lead to different routes |
| `FlashcardSetSummary.StudyTarget` | frontend/mentora/src/pages/Flashcards/FlashcardSetCard.jsx:8-12 | nothing iff no document or an empty id; the populated `_id`, else the plain id, else "[object Object]" |
| `FlashcardSetSummary.StudyTargetPopulatedOrPlain` | frontend/mentora/src/pages/Flashcards/FlashcardSetCard.jsx:9 | a populated document and its plain id lead to the same page |
| `FlashcardViewer.NextIndex` | frontend/mentora/src/pages/Flashcards/FlashcardPage.jsx:65 | the next index stays in range and wraps from the last card to the first |
| `FlashcardViewer.PrevIndex` | frontend/mentora/src/pages/Flashcards/FlashcardPage.jsx:72-74 | the previous index stays in range and wraps from the first card to the last |
| `FlashcardViewer.NextPrevInverse` | frontend/mentora/src/pages/Flashcards/FlashcardPage.jsx:61-75 | previous after next, and next after previous, return to the same card |
| `FlashcardViewer.StepForward` | frontend/mentora/src/pages/Flashcards/FlashcardPage.jsx:65 | any number of steps forward stays in range |
| `FlashcardViewer.StepForwardWraps` | frontend/mentora/src/pages/Flashcards/FlashcardPage.jsx:65 | k steps forward land on (i + k) mod n; n steps return to the start |
| `FlashcardViewer.ToggleStarred` | frontend/mentora/src/pages/Flashcards/FlashcardPage.jsx:95-99 | same length; ids and reviews kept; the star flips exactly on cards with the id |
| `FlashcardViewer.ToggleTwice` | frontend/mentora/src/pages/Flashcards/FlashcardPage.jsx:95-99 | toggling twice restores the cards |
| `FlashcardViewer.ToggleOthersUnchanged` | frontend/mentora/src/pages/Flashcards/FlashcardPage.jsx:97 | cards with other ids are unchanged; an unknown id changes nothing |
| `FlashcardViewer.ToggleKeepsReviewed` | frontend/mentora/src/pages/Flashcards/FlashcardPage.jsx:95-99 | starring keeps the reviewed count |
| `FlashcardViewer.Carousel.constructor` | frontend/mentora/src/pages/Flashcards/FlashcardPage.jsx:16-21 | the page starts with no cards, index 0, face up |
| `FlashcardViewer.Carousel.CurrentCard` | frontend/mentora/src/pages/Flashcards/FlashcardPage.jsx:128 | a card is shown iff there are cards, and it is one of them |
| `FlashcardViewer.Carousel.Counter` | frontend/mentora/src/pages/Flashcards/FlashcardPage.jsx:149 | the counter reads between 1 and the card count |
| `FlashcardViewer.Carousel.Fetch` | frontend/mentora/src/pages/Flashcards/FlashcardPage.jsx:28-33 | the first set (or none) is chosen, its cards shown from index 0, face up |
| `FlashcardViewer.Carousel.FetchFailed` | frontend/mentora/src/pages/Flashcards/FlashcardPage.jsx:37-38 | no set and no cards; index and flip unchanged |
| `FlashcardViewer.Carousel.Next` | frontend/mentora/src/pages/Flashcards/FlashcardPage.jsx:61-66 | no change without cards; else the next index, face up, cards unchanged |
| `FlashcardViewer.Carousel.Prev` | frontend/mentora/src/pages/Flashcards/FlashcardPage.jsx:68-75 | no change without cards; else the previous index, face up, cards unchanged |
| `FlashcardViewer.Carousel.SetFlipped` | frontend/mentora/src/pages/Flashcards/FlashcardPage.jsx:137 | only the flip changes |
| `FlashcardViewer.Carousel.ToggleStar` | frontend/mentora/src/pages/Flashcards/FlashcardPage.jsx:92-105 | an accepted toggle flips the card's star; a failed one changes nothing; index and flip kept |
| `FlashcardViewer.NextThenPrev` | frontend/mentora/src/pages/Flashcards/FlashcardPage.jsx:61-79 | next then previous shows the same card, face up |
| `ErrorHandler.JoinCommaAppend` | backend/middleware/errorHandler.js:22-24 | joining two lists puts exactly one ", " between their joins |
| `ErrorHandler.JoinCommaSmall` | backend/middleware/errorHandler.js:22-24 | no messages join to "", one to itself |
| `ErrorHandler.JoinCommaCount` | backend/middleware/errorHandler.js:22-24 | n comma-free messages are joined with n - 1 separators |
| `ErrorHandler.Default` | backend/middleware/errorHandler.js:4-5 | the starting status is never 0 and the message never empty; a truthy `statusCode` or `message` is kept |
| `ErrorHandler.Matches` | backend/middleware/errorHandler.js:8-43 | a code rule matches only an error with a code, a name rule only one with a name |
| `ErrorHandler.MatchingRulesDiffer` | backend/middleware/errorHandler.js:8-43 | two rules matching one error are a name rule and a code rule |
| `ErrorHandler.RuleOutcome` | backend/middleware/errorHandler.js:8-43 | a rule sets 401 for the token errors and 400 otherwise; it throws, with the `Object.keys`/`Object.values` error, iff it is the duplicate-key rule without `keyValue` or the validation rule without `errors` |
| `ErrorHandler.CastMessageNamesPath` | backend/middleware/errorHandler.js:8-11 | the cast rule sets 400 and a message ending with the path, "undefined" when there is none |
| `ErrorHandler.ApplyRulesFrom` | backend/middleware/errorHandler.js:8-43 | running the rules ends with the starting outcome or that of a matching rule |
| `ErrorHandler.Classify` | backend/middleware/errorHandler.js:4-43 | the classification is the default or the outcome of a matching rule |
| `ErrorHandler.ApplyFirst` | backend/middleware/errorHandler.js:8-43 | running the rules is applying the first and running the rest |
| `ErrorHandler.ClassifyUnfold` | backend/middleware/errorHandler.js:8-43 | the classification applies the six rules in source order |
| `ErrorHandler.LastMatch` | backend/middleware/errorHandler.js:8-43 | the last matching rule, or -1 iff none matches |
| `ErrorHandler.LastMatchDecides` | backend/middleware/errorHandler.js:8-43 | without a throwing rule, the last matching rule decides status and message |
| `ErrorHandler.ThrowsWhenMatchedRuleThrows` | backend/middleware/errorHandler.js:15-22 | the handler throws iff a matching rule reads a missing `keyValue` or `errors` |
| `ErrorHandler.ThrowingRules` | backend/middleware/errorHandler.js:14-26 | only the duplicate-key and validation rules can throw |
| `ErrorHandler.DefaultWhenNothingMatches` | backend/middleware/errorHandler.js:4-5 | with no special name or code the default status and message stand |
| `ErrorHandler.TokenErrorsAre401` | backend/middleware/errorHandler.js:35-43 | token errors are 401 "Invalid token." / "Your token has expired." whatever their code |
| `ErrorHandler.DatabaseAndUploadErrorsAre400` | backend/middleware/errorHandler.js:8-32 | cast, duplicate-key, validation and file-size errors are 400 unless a token rule follows |
| `ErrorHandler.LaterRuleOverrides` | backend/middleware/errorHandler.js:14-32 | a later rule overrides an earlier one: validation over duplicate key, file size over validation |
| `ErrorHandler.Respond` | backend/middleware/errorHandler.js:50-55 | a thrown outcome is rethrown unchanged; otherwise the body says `success: false`, its `statusCode` equals the HTTP status, and it carries the error's stack exactly in development and no stack otherwise |
| `ErrorHandler.HandleError` | backend/middleware/errorHandler.js:3-56 | the sequential `if`s give the response of the rule-list classification |

## Left out

- Database access is left out. The quiz lookup, saving and the 404
  "Quiz not found" responses are not modelled: `Submit` and `Results` start
  from a quiz already found. The per-user filter and `populate` are left out
  for the same reason.
- Clocks are parameters. `answeredAt` and `completedAt` both come from the
  `now` argument, whereas the source calls `new Date()` separately for each.
- Network calls are left out: the review call `handleReview`, the star
  request (only its success or failure is a parameter), flashcard generation
  and fetching itself. Toasts, console logging, the `loading` and
  `generating` flags and all rendering are also left out.
- Numbers are unbounded integers. Fractional and `NaN` answers, booleans and
  objects as answers, and `parseInt` losing precision beyond 2^53 are not
  modelled.
- Options are always strings. `(opt || "").toString()` on a non-string
  option is not modelled. A missing options list is the empty list, which
  also covers `result.options || []` on the page; the page's
  `result.options.map`, which would throw on a missing list, is not modelled.
- `toLowerCase` covers ASCII letters only. Other Unicode case mappings are
  not modelled.
- The score is stored as computed, including `NaN` and `Infinity`. How the
  database would store or reject such a value is not modelled.
- `FlashcardViewer.Carousel.Fetch` reads a set's `cards` through
  `CardsOf`, so a truthy non-array `cards` becomes no cards. The page's
  `activeSet?.cards || []` would keep such a value.
- `FlashcardViewer.Carousel` starts `flashcardSets` as "no set". The page
  starts it as an empty array, which nothing reads.
- `ErrorHandler.HandleError`: `Object.keys` and `Object.values` are taken as
  given lists of keys and messages, and `err.statusCode` as an integer. The
  console log is not modelled.
- The page's `Number.isNaN` checks are left out. They can never fire,
  because the text they parse is all digits.
- `Values.RoundedPercent` rounds the exact ratio, where JavaScript first
  computes `part / whole * 100` in binary64 floating point. The two differ
  when that product lands just below a half: 23/40 gives 57.49999999999999,
  which `Math.round` turns into 57, while the exact reading gives 58 (likewise
  46/80, 29/200 and 57/200). The 100 % and 0 % thresholds proved here hold in
  both readings; the rounded value in between can be one higher.
- `Values.ComputeScore` inherits that gap: a quiz with 23 of 40 correct
  scores 57 in the source and 58 in the model.
- `FlashcardSetSummary.Progress` inherits that gap: a set of 40 cards with
  23 reviewed shows 57 % in the source and 58 % in the model.
- `SubmittedAnswer.questionIndex` is an integer, so only integer indices
  are modelled: negative ones, which pass `questionIndex < length` and make
  `quiz.questions[i].options` throw, and ones at or past the end, which are
  skipped. The other kinds JavaScript would accept are not modelled:
  - a missing (`undefined`) index fails `undefined < length` and is skipped;
  - `null` and `false` compare as 0 and `true` as 1, so they pass
    `< length` whenever the quiz has enough questions, but
    `quiz.questions[null]`, `[false]` and `[true]` read the keys "null",
    "false" and "true", which are undefined, and `.options` then throws:
    the submission fails with 500 and the quiz is unchanged;
  - a fractional index such as 1.5 below the length passes the comparison,
    `quiz.questions[1.5]` is undefined and the submission fails the same way;
  - text such as `"0"` is coerced in the comparison and used as an array
    key, so it is graded like the integer 0; text that is not a number,
    such as `"a"`, compares as `NaN` and is skipped.
- An element of `answers` that is `null` or `undefined` is not modelled:
  destructuring it throws, so the submission fails with 500 and the quiz is
  unchanged. A number, string or boolean element destructures to an
  undefined `questionIndex`, which fails `< length`, so it is skipped like
  an index past the end.
- `FlashcardViewer.Carousel.Next` and `FlashcardViewer.Carousel.Prev` model
  the click handlers. On the page, the buttons that call them are disabled
  when there is at most one card (FlashcardPage.jsx:143 and :154), so with
  a single card a flipped card stays flipped, whereas `Next` and `Prev`
  called on a one-card carousel turn it face up.
- `QuizResultView.ScoreColor` and `QuizResultView.ScoreMessage` take an
  `Infinity` score as above every band. The page would receive it as `null`
  through JSON and show the lowest band. The case cannot arise while
  `totalQuestions` is the question count (backend/controllers/aiController.js:107),
  because the correct count is then positive only when there are questions.
