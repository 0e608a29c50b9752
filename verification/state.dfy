/** The carousel's state record and the constants of script.js.

    The source keeps this state as variables closed over by the carousel's
    handlers; here it is one immutable record, and every handler is a pure
    function from the record before the event to the record after it.
 */
module CarouselState {

  /** Spacing between two cards, in px. */
  const Gap: int := 20

  /** A gesture must move the track by more than this many px to change the index. */
  const SwipeThreshold: int := 60

  /** A link click is cancelled when the track moved by more than this many px. */
  const ClickSlop: int := 5

  /** Everything the carousel closure keeps between events, plus what it has
      last written into the page (transform, dot markers, arrow flags). */
  datatype State = State(
    cardCount: nat,          // number of cards, fixed when the carousel is mounted
    cardWidth: nat,          // rendered width of the first card
    gap: int,                // always Gap
    visibleCards: nat,       // whole cards that fit in the container
    maxIndex: nat,           // last resting index
    currentIndex: nat,       // current resting index
    isDragging: bool,        // a gesture is in progress
    startX: int,             // pointer X where the gesture started
    currentTranslate: int,   // live horizontal offset of the track
    prevTranslate: int,      // offset of the last settled position
    shownTranslate: int,     // horizontal offset the track is drawn at
    dots: seq<bool>,         // one entry per indicator dot; true marks it active
    prevDisabled: bool,      // the "previous" arrow is disabled
    nextDisabled: bool,      // the "next" arrow is disabled
    releasedBy: int          // displacement of the last finished gesture (corrected click guard only)
  )

  /** The state right after the closure's variable declarations, before any
      layout pass: index 0, one visible card, no dots built yet. */
  function Fresh(cardCount: nat): (s: State)
    ensures s.cardCount == cardCount && s.currentIndex == 0 && s.maxIndex == 0
    ensures !s.isDragging && s.dots == []
  {
    State(cardCount, 0, Gap, 1, 0, 0, false, 0, 0, 0, 0, [], false, false, 0)
  }

  /** The offset (in px) at which the track rests when showing index `index`. */
  function RestingTranslate(s: State, index: int): int
  {
    -(index * (s.cardWidth + s.gap))
  }

  /** The translate fields agree with the index: the drag baseline, the live
      offset and the drawn offset are all the resting offset of currentIndex. */
  predicate Settled(s: State)
  {
    && s.prevTranslate == RestingTranslate(s, s.currentIndex)
    && s.currentTranslate == s.prevTranslate
    && s.shownTranslate == s.currentTranslate
  }

  /** Exactly the dot at position `k` is marked active. */
  predicate ActiveAt(dots: seq<bool>, k: int)
  {
    && 0 <= k < |dots|
    && forall i :: 0 <= i < |dots| ==> (dots[i] <==> i == k)
  }

  /** The arrows' disabled flags reflect the index bounds. */
  predicate ArrowsMatch(s: State)
  {
    && (s.prevDisabled <==> s.currentIndex == 0)
    && (s.nextDisabled <==> s.currentIndex >= s.maxIndex)
  }

  /** Two states agree on the geometry and the index. */
  predicate SameLayout(s: State, t: State)
  {
    && t.cardCount == s.cardCount
    && t.cardWidth == s.cardWidth
    && t.gap == s.gap
    && t.visibleCards == s.visibleCards
    && t.maxIndex == s.maxIndex
    && t.currentIndex == s.currentIndex
  }

  /** Two states agree on what has been written into the page. */
  predicate SameRender(s: State, t: State)
  {
    && t.currentTranslate == s.currentTranslate
    && t.prevTranslate == s.prevTranslate
    && t.shownTranslate == s.shownTranslate
    && t.dots == s.dots
    && t.prevDisabled == s.prevDisabled
    && t.nextDisabled == s.nextDisabled
  }

  /** Two states differ at most in what the render step writes: the
      translate fields, the dot markers and the arrow flags. */
  predicate SameModel(s: State, t: State)
  {
    && SameLayout(s, t)
    && t.isDragging == s.isDragging
    && t.startX == s.startX
    && t.releasedBy == s.releasedBy
  }
}
