/** The layout pass `recalc` (script.js:64-74) and the resize handler that
    runs it followed by `buildDots` (script.js:174).

    The page's measurements are parameters: `cardWidth` is the first card's
    `offsetWidth`, `containerWidth` the track's parent's `offsetWidth`.
 */
module Layout {
  import opened CarouselState
  import opened Geometry
  import opened Render

  /** `recalc`: with no cards it does nothing; otherwise it takes the new
      geometry, recomputes how many cards are visible and the last resting
      index, lowers the index to that bound if it now lies beyond it, and
      re-renders. */
  function Recalc(s: State, cardWidth: nat, containerWidth: nat): (r: State)
    ensures s.cardCount == 0 ==> r == s
    ensures s.cardCount > 0 ==>
      && r.cardWidth == cardWidth && r.gap == Gap
      && r.visibleCards == VisibleCards(cardWidth, containerWidth)
      && r.maxIndex == MaxIndex(s.cardCount, r.visibleCards)
      && r.currentIndex <= r.maxIndex
      && (s.currentIndex <= r.maxIndex ==> r.currentIndex == s.currentIndex)
      && (s.currentIndex > r.maxIndex ==> r.currentIndex == r.maxIndex)
      && Settled(r) && ArrowsMatch(r)
      && (forall i :: 0 <= i < |r.dots| ==> (r.dots[i] <==> i == r.currentIndex))
    ensures r.cardCount == s.cardCount && r.isDragging == s.isDragging
    ensures r.startX == s.startX && r.releasedBy == s.releasedBy
    ensures |r.dots| == |s.dots|
  {
    if s.cardCount == 0 then s
    else
      var visible := VisibleCards(cardWidth, containerWidth);
      var maxIndex := MaxIndex(s.cardCount, visible);
      var index := if s.currentIndex > maxIndex then maxIndex else s.currentIndex;
      UpdateCarousel(s.(cardWidth := cardWidth, gap := Gap, visibleCards := visible,
                        maxIndex := maxIndex, currentIndex := index))
  }

  /** A second layout pass over unchanged geometry changes nothing. */
  lemma RecalcIdempotent(s: State, cardWidth: nat, containerWidth: nat)
    ensures Recalc(Recalc(s, cardWidth, containerWidth), cardWidth, containerWidth)
         == Recalc(s, cardWidth, containerWidth)
  {
  }

  /** The resize handler: a layout pass, then the dots are rebuilt for the new
      layout. Apart from the dots the result is the layout pass's. */
  function Resize(s: State, cardWidth: nat, containerWidth: nat): (r: State)
    ensures r == Recalc(s, cardWidth, containerWidth).(dots := r.dots)
    ensures s.cardCount > 0 ==> Settled(r) && ArrowsMatch(r)
    ensures s.cardCount > 0 && s.currentIndex <= r.maxIndex ==> r.currentIndex == s.currentIndex
    ensures s.cardCount > 0 ==> r.visibleCards == VisibleCards(cardWidth, containerWidth)
    ensures s.maxIndex == MaxIndex(s.cardCount, s.visibleCards) || s.cardCount > 0 ==>
      r.maxIndex == MaxIndex(r.cardCount, r.visibleCards)
    ensures r.maxIndex == MaxIndex(r.cardCount, r.visibleCards) ==> |r.dots| == r.maxIndex + 1
    ensures ActiveAt(r.dots, 0)
    ensures r.currentIndex <= s.currentIndex
  {
    BuildDots(Recalc(s, cardWidth, containerWidth))
  }

  /** A second resize with the same geometry changes nothing. */
  lemma ResizeIdempotent(s: State, cardWidth: nat, containerWidth: nat)
    ensures Resize(Resize(s, cardWidth, containerWidth), cardWidth, containerWidth)
         == Resize(s, cardWidth, containerWidth)
  {
  }
}
