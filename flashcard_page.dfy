/**
 * The flashcard study page (frontend/mentora/src/pages/Flashcards/FlashcardPage.jsx):
 * a carousel over the cards of a document's first flashcard set, with the
 * index of the card shown, whether it is flipped, and starring.
 */
module FlashcardViewer {
  import opened Values
  import opened FlashcardSetSummary

  /** The index after `i` in a carousel of `n` cards: `(i + 1) % n`. */
  function NextIndex(i: int, n: nat): (r: int)
    requires 0 <= i < n
    ensures 0 <= r < n
    ensures r == if i == n - 1 then 0 else i + 1
  {
    (i + 1) % n
  }

  /** The index before `i`: `(i - 1 + n) % n`. */
  function PrevIndex(i: int, n: nat): (r: int)
    requires 0 <= i < n
    ensures 0 <= r < n
    ensures r == if i == 0 then n - 1 else i - 1
  {
    (i - 1 + n) % n
  }

  /** Going back undoes going forward and going forward undoes going back. */
  lemma NextPrevInverse(i: int, n: nat)
    requires 0 <= i < n
    ensures PrevIndex(NextIndex(i, n), n) == i
    ensures NextIndex(PrevIndex(i, n), n) == i
  {
  }

  /** `k` steps forward from `i`. */
  function StepForward(i: int, n: nat, k: nat): (r: int)
    requires 0 <= i < n
    ensures 0 <= r < n
  {
    if k == 0 then i else NextIndex(StepForward(i, n, k - 1), n)
  }

  /** `k` steps forward land on `(i + k) % n`: after `n` steps the carousel is back where it started. */
  lemma {:induction false} StepForwardWraps(i: int, n: nat, k: nat)
    requires 0 <= i < n
    ensures StepForward(i, n, k) == (i + k) % n
    ensures k == n ==> StepForward(i, n, k) == i
  {
    if k > 0 {
      StepForwardWraps(i, n, k - 1);
      ModStep(i + k - 1, n);
    } else {
      ModUnique(i, n, 0, i);
    }
    if k == n {
      ModUnique(i + k, n, 1, i);
    }
  }

  lemma ModStep(x: nat, n: nat)
    requires n > 0
    ensures (x % n + 1) % n == (x + 1) % n
  {
    var q, m := x / n, x % n;
    if m == n - 1 {
      ModUnique(x + 1, n, q + 1, 0);
      ModUnique(m + 1, n, 1, 0);
    } else {
      ModUnique(x + 1, n, q, m + 1);
      ModUnique(m + 1, n, 0, m + 1);
    }
  }

  /** The remainder is the unique `r` in `[0, n)` with `x == q * n + r`. */
  lemma ModUnique(x: int, n: int, q: int, r: int)
    requires n > 0 && 0 <= r < n && x == q * n + r
    ensures x % n == r
  {
    var q', r' := x / n, x % n;
    assert (q - q') * n == r' - r;
    if q > q' {
      MulAtLeast(q - q', n);
    } else if q < q' {
      MulAtLeast(q' - q, n);
    }
  }

  lemma MulAtLeast(a: int, n: int)
    requires a >= 1 && n > 0
    ensures a * n >= n
  {
  }

  /** The cards after `handleToggleStar(cardId)`: every card with that id has its star flipped. */
  function ToggleStarred(cards: seq<Card>, cardId: string): (r: seq<Card>)
    ensures |r| == |cards|
    ensures forall i :: 0 <= i < |cards| ==>
              && r[i].id == cards[i].id && r[i].lastReviewed == cards[i].lastReviewed
              && (r[i].isStarred <==> (cards[i].id == cardId) != cards[i].isStarred)
  {
    seq(|cards|, i requires 0 <= i < |cards| =>
      var c := cards[i];
      if c.id == cardId then c.(isStarred := !c.isStarred) else c)
  }

  /** Toggling the same card twice restores the list. */
  lemma ToggleTwice(cards: seq<Card>, cardId: string)
    ensures ToggleStarred(ToggleStarred(cards, cardId), cardId) == cards
  {
    var r := ToggleStarred(ToggleStarred(cards, cardId), cardId);
    assert forall i :: 0 <= i < |cards| ==> r[i] == cards[i];
  }

  /** Cards with other ids are untouched, and a missing id changes nothing. */
  lemma ToggleOthersUnchanged(cards: seq<Card>, cardId: string)
    ensures forall i :: 0 <= i < |cards| && cards[i].id != cardId ==> ToggleStarred(cards, cardId)[i] == cards[i]
    ensures (forall i :: 0 <= i < |cards| ==> cards[i].id != cardId) ==> ToggleStarred(cards, cardId) == cards
  {
  }

  /** Starring does not change how many cards were reviewed. */
  lemma ToggleKeepsReviewed(cards: seq<Card>, cardId: string)
    ensures ReviewedCount(ToggleStarred(cards, cardId)) == ReviewedCount(cards)
  {
    ReviewedCountPointwise(ToggleStarred(cards, cardId), cards);
  }

  /**
   * What the page shows of the document's flashcard sets. `flashcardSets`
   * holds the chosen set (or none), `flashcards` its cards,
   * `currentCardIndex` the card shown and `isFlipped` whether its back is up.
   */
  class Carousel {
    var flashcardSets: Option<FlashcardSet>
    var flashcards: seq<Card>
    var currentCardIndex: int
    var isFlipped: bool

    /** The index names a card whenever there is one. */
    ghost predicate Valid()
      reads this
    {
      flashcards != [] ==> 0 <= currentCardIndex < |flashcards|
    }

    /** The initial state: no set, no cards, the first index, face up. */
    constructor ()
      ensures Valid()
      ensures flashcardSets.None? && flashcards == [] && currentCardIndex == 0 && !isFlipped
    {
      flashcardSets := None;
      flashcards := [];
      currentCardIndex := 0;
      isFlipped := false;
    }

    /** The card on screen: there is one exactly when there are cards. */
    function CurrentCard(): (c: Option<Card>)
      reads this
      requires Valid()
      ensures c.Some? <==> flashcards != []
      ensures c.Some? ==> c.value in flashcards
    {
      if flashcards == [] then None else Some(flashcards[currentCardIndex])
    }

    /** The counter `current/total` under the card, 1-based. */
    function Counter(): (r: (int, nat))
      reads this
      requires Valid()
      ensures r.1 == |flashcards|
      ensures flashcards != [] ==> 1 <= r.0 <= r.1
    {
      (currentCardIndex + 1, |flashcards|)
    }

    /**
     * A successful fetch: `data` is the list of sets (`None` when missing or
     * not an array). The first set is chosen, its cards are shown from the
     * first one, face up.
     */
    method Fetch(data: Option<seq<FlashcardSet>>)
      modifies this
      ensures Valid()
      ensures flashcardSets == (if data.Some? && data.value != [] then Some(data.value[0]) else None)
      ensures flashcards == (if flashcardSets.Some? then CardsOf(flashcardSets.value) else [])
      ensures currentCardIndex == 0 && !isFlipped
    {
      var sets := if data.Some? then data.value else [];
      var activeSet := if |sets| > 0 then Some(sets[0]) else None;
      flashcardSets := activeSet;
      flashcards := if activeSet.Some? then CardsOf(activeSet.value) else [];
      currentCardIndex := 0;
      isFlipped := false;
    }

    /** A failed fetch: no set and no cards; the index and the flip are left as they were. */
    method FetchFailed()
      modifies this
      ensures Valid()
      ensures flashcardSets.None? && flashcards == []
      ensures currentCardIndex == old(currentCardIndex) && isFlipped == old(isFlipped)
    {
      flashcardSets := None;
      flashcards := [];
    }

    /** `handleNextCard`: nothing without cards, else the next card, face up. */
    method Next()
      requires Valid()
      modifies this
      ensures Valid()
      ensures flashcards == old(flashcards) && flashcardSets == old(flashcardSets)
      ensures old(flashcards) == [] ==> currentCardIndex == old(currentCardIndex) && isFlipped == old(isFlipped)
      ensures old(flashcards) != [] ==>
                currentCardIndex == NextIndex(old(currentCardIndex), |flashcards|) && !isFlipped
    {
      if |flashcards| == 0 {
        return;
      }
      isFlipped := false;
      currentCardIndex := (currentCardIndex + 1) % |flashcards|;
    }

    /** `handlePrevCard`: nothing without cards, else the previous card, face up. */
    method Prev()
      requires Valid()
      modifies this
      ensures Valid()
      ensures flashcards == old(flashcards) && flashcardSets == old(flashcardSets)
      ensures old(flashcards) == [] ==> currentCardIndex == old(currentCardIndex) && isFlipped == old(isFlipped)
      ensures old(flashcards) != [] ==>
                currentCardIndex == PrevIndex(old(currentCardIndex), |flashcards|) && !isFlipped
    {
      if |flashcards| == 0 {
        return;
      }
      isFlipped := false;
      currentCardIndex := (currentCardIndex - 1 + |flashcards|) % |flashcards|;
    }

    /** The flip the card component performs through `setIsFlipped`. */
    method SetFlipped(value: bool)
      modifies this
      ensures isFlipped == value
      ensures flashcards == old(flashcards) && flashcardSets == old(flashcardSets)
      ensures currentCardIndex == old(currentCardIndex)
    {
      isFlipped := value;
    }

    /**
     * `handleToggleStar(cardId)`: once the server has accepted the toggle
     * (`accepted`), the star of the card with that id flips; a failed
     * request changes nothing.
     */
    method ToggleStar(cardId: string, accepted: bool)
      requires Valid()
      modifies this
      ensures Valid()
      ensures flashcards == (if accepted then ToggleStarred(old(flashcards), cardId) else old(flashcards))
      ensures currentCardIndex == old(currentCardIndex) && isFlipped == old(isFlipped)
      ensures flashcardSets == old(flashcardSets)
    {
      if accepted {
        flashcards := ToggleStarred(flashcards, cardId);
      }
    }
  }

  /** Next then previous shows the same card again, face up. */
  method NextThenPrev(c: Carousel)
    requires c.Valid() && c.flashcards != []
    modifies c
    ensures c.Valid()
    ensures c.currentCardIndex == old(c.currentCardIndex) && c.flashcards == old(c.flashcards)
    ensures !c.isFlipped
  {
    c.Next();
    c.Prev();
    NextPrevInverse(old(c.currentCardIndex), |c.flashcards|);
  }
}
