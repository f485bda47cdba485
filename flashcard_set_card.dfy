/**
 * Flashcards and the card that summarises a flashcard set in the list of
 * sets (frontend/mentora/src/pages/Flashcards/FlashcardSetCard.jsx): how many
 * cards the set has, how many were reviewed, the rounded progress
 * percentage, the labels shown and where "study now" leads.
 */
module FlashcardSetSummary {
  import opened Values

  /** A flashcard; `lastReviewed` is the time of the last review, or null. */
  datatype Card = Card(id: string, isStarred: bool, lastReviewed: Option<int>)

  /**
   * The `documentId` of a set: a populated document (with or without its
   * `_id`), a plain id string, or nothing.
   */
  datatype DocumentRef = Populated(oid: Option<string>) | Plain(id: string) | Absent

  /** A flashcard set; `cards` is `None` when the field is not an array. */
  datatype FlashcardSet = FlashcardSet(documentId: DocumentRef, cards: Option<seq<Card>>)

  /** The cards of a set, a missing or non-array field read as none. */
  function CardsOf(s: FlashcardSet): (cards: seq<Card>)
    ensures s.cards.None? ==> cards == []
    ensures s.cards.Some? ==> cards == s.cards.value
  {
    if s.cards.Some? then s.cards.value else []
  }

  predicate Reviewed(c: Card)
  {
    c.lastReviewed.Some?
  }

  /** `cards.filter(card => card.lastReviewed).length`. */
  function ReviewedCount(cards: seq<Card>): (n: nat)
    ensures n <= |cards|
  {
    if cards == [] then 0
    else ReviewedCount(cards[..|cards| - 1]) + (if Reviewed(cards[|cards| - 1]) then 1 else 0)
  }

  /**
   * The reviewed cards are at most all of them; they are all of them exactly
   * when every card was reviewed, and none exactly when no card was.
   */
  lemma {:induction false} ReviewedCountSpec(cards: seq<Card>)
    ensures ReviewedCount(cards) <= |cards|
    ensures ReviewedCount(cards) == |cards| <==> forall i :: 0 <= i < |cards| ==> Reviewed(cards[i])
    ensures ReviewedCount(cards) == 0 <==> forall i :: 0 <= i < |cards| ==> !Reviewed(cards[i])
  {
    if cards != [] {
      var init := cards[..|cards| - 1];
      ReviewedCountSpec(init);
      assert forall i :: 0 <= i < |init| ==> init[i] == cards[i];
    }
  }

  /** The count depends only on which positions hold reviewed cards. */
  lemma {:induction false} ReviewedCountPointwise(a: seq<Card>, b: seq<Card>)
    requires |a| == |b| && forall i :: 0 <= i < |a| ==> (Reviewed(a[i]) <==> Reviewed(b[i]))
    ensures ReviewedCount(a) == ReviewedCount(b)
  {
    if a != [] {
      var ai, bi := a[..|a| - 1], b[..|b| - 1];
      assert forall i :: 0 <= i < |ai| ==> ai[i] == a[i] && bi[i] == b[i];
      ReviewedCountPointwise(ai, bi);
    }
  }

  /**
   * `progressPercentage`: 0 for a set without cards, otherwise
   * `Math.round(reviewed / total * 100)`, the percentage rounded half up.
   */
  function Progress(s: FlashcardSet): (p: nat)
    ensures |CardsOf(s)| == 0 ==> p == 0
    ensures |CardsOf(s)| > 0 ==>
              var t, r := |CardsOf(s)|, ReviewedCount(CardsOf(s));
              2 * t * p <= 200 * r + t < 2 * t * (p + 1)
    ensures p <= 100
  {
    var cards := CardsOf(s);
    ReviewedCountSpec(cards);
    if |cards| > 0 then
      RoundedPercentAtMost100(ReviewedCount(cards), |cards|);
      RoundedPercent(ReviewedCount(cards), |cards|)
    else 0
  }

  /** A set whose cards were all reviewed shows 100 %, one with none reviewed 0 %. */
  lemma ProgressEnds(s: FlashcardSet)
    ensures (forall i :: 0 <= i < |CardsOf(s)| ==> Reviewed(CardsOf(s)[i])) && |CardsOf(s)| > 0 ==>
              Progress(s) == 100
    ensures (forall i :: 0 <= i < |CardsOf(s)| ==> !Reviewed(CardsOf(s)[i])) ==> Progress(s) == 0
  {
    ReviewedCountSpec(CardsOf(s));
    if |CardsOf(s)| > 0 {
      RoundedPercentEnds(|CardsOf(s)|);
    }
  }

  /**
   * 100 % means every card was reviewed only for sets of fewer than 200
   * cards: from 200 cards on, a single unreviewed card still rounds to 100.
   */
  lemma ProgressFullMeansAllReviewed(s: FlashcardSet)
    requires 0 < |CardsOf(s)| < 200
    ensures Progress(s) == 100 <==> forall i :: 0 <= i < |CardsOf(s)| ==> Reviewed(CardsOf(s)[i])
  {
    var cards := CardsOf(s);
    ReviewedCountSpec(cards);
    RoundedPercentIs100(ReviewedCount(cards), |cards|);
  }

  lemma ProgressFullWithOneUnreviewed(s: FlashcardSet)
    requires |CardsOf(s)| >= 200 && ReviewedCount(CardsOf(s)) == |CardsOf(s)| - 1
    ensures Progress(s) == 100
    ensures exists i :: 0 <= i < |CardsOf(s)| && !Reviewed(CardsOf(s)[i])
  {
    var cards := CardsOf(s);
    ReviewedCountSpec(cards);
    RoundedPercentIs100(ReviewedCount(cards), |cards|);
  }

  /** `"card"` for exactly one card, `"cards"` otherwise. */
  function CardLabel(total: nat): (word: string)
    ensures word == "card" <==> total == 1
    ensures word == "card" || word == "cards"
  {
    if total == 1 then "card" else "cards"
  }

  /** The percentage badge shows exactly when some card has been reviewed. */
  function ShowBadge(s: FlashcardSet): (shown: bool)
    ensures shown <==> exists i :: 0 <= i < |CardsOf(s)| && Reviewed(CardsOf(s)[i])
  {
    ReviewedCountSpec(CardsOf(s));
    ReviewedCount(CardsOf(s)) > 0
  }

  /** The progress bar shows for a set with cards; without it the progress reads 0. */
  function ShowProgressBar(s: FlashcardSet): (shown: bool)
    ensures !shown ==> Progress(s) == 0
    ensures shown <==> CardsOf(s) != []
  {
    |CardsOf(s)| > 0
  }

  /**
   * A set whose `cards` is missing or not an array reads as a set without
   * cards: progress 0, no badge, no bar, and the plural label.
   */
  lemma NoCardsArray(s: FlashcardSet)
    requires s.cards.None?
    ensures Progress(s) == 0 && !ShowBadge(s) && !ShowProgressBar(s)
    ensures CardLabel(|CardsOf(s)|) == "cards"
  {
  }

  /**
   * The badge only shows beside a progress bar, and for sets of at most 200
   * cards it never reads 0 %; from 201 cards on, one reviewed card rounds to
   * a badge reading 0 %.
   */
  lemma BadgeReading(s: FlashcardSet)
    requires ShowBadge(s)
    ensures ShowProgressBar(s)
    ensures |CardsOf(s)| <= 200 ==> Progress(s) >= 1
    ensures |CardsOf(s)| > 200 && ReviewedCount(CardsOf(s)) == 1 ==> Progress(s) == 0
  {
    var cards := CardsOf(s);
    ReviewedCountSpec(cards);
    var t, r := |cards|, ReviewedCount(cards);
    if t <= 200 {
      MulMonotone(200, 1, r);
    }
  }

  /** The route of the flashcard page of a document. */
  function StudyPath(docId: string): (path: string)
    ensures |path| == |docId| + 22
    ensures path[..11] == "/documents/" && path[|path| - 11..] == "/flashcards"
  {
    "/documents/" + docId + "/flashcards"
  }

  /** Different documents lead to different routes. */
  lemma StudyPathInjective(a: string, b: string)
    requires StudyPath(a) == StudyPath(b)
    ensures a == b
  {
    assert a == StudyPath(a)[11..|StudyPath(a)| - 11];
    assert b == StudyPath(b)[11..|StudyPath(b)| - 11];
  }

  /**
   * `handleStudyNow`: `documentId._id || documentId` names the document; a
   * falsy choice does nothing, and a populated document without a usable
   * `_id` is itself the choice, an object that reads "[object Object]".
   */
  function StudyTarget(d: DocumentRef): (r: Option<string>)
    ensures r.None? <==> d.Absent? || (d.Plain? && d.id == "")
    ensures d.Populated? && d.oid.Some? && d.oid.value != "" ==> r == Some(StudyPath(d.oid.value))
    ensures d.Plain? && d.id != "" ==> r == Some(StudyPath(d.id))
    ensures d.Populated? && (d.oid.None? || d.oid.value == "") ==> r == Some(StudyPath("[object Object]"))
  {
    match d
    case Populated(oid) =>
      if oid.Some? && oid.value != "" then Some(StudyPath(oid.value))
      else Some(StudyPath("[object Object]"))
    case Plain(id) => if id != "" then Some(StudyPath(id)) else None
    case Absent => None
  }

  /** A populated document and its plain id lead to the same page. */
  lemma StudyTargetPopulatedOrPlain(id: string)
    requires id != ""
    ensures StudyTarget(Populated(Some(id))) == StudyTarget(Plain(id)) == Some(StudyPath(id))
  {
  }
}
