/** What the carousel writes into the page: `updateCarousel` (script.js:76-91),
    `buildDots` (script.js:94-108) and the link-click guard (script.js:160-166).
 */
module Render {
  import opened CarouselState
  import opened Geometry

  /** `updateCarousel`: moves the track to the resting offset of the current
      index, re-synchronises the drag baseline with it, marks the matching dot
      and sets the arrows' disabled flags. */
  function UpdateCarousel(s: State): (r: State)
    ensures SameModel(s, r)
    ensures Settled(r)
    ensures |r.dots| == |s.dots|
    ensures forall i :: 0 <= i < |r.dots| ==> (r.dots[i] <==> i == s.currentIndex)
    ensures s.currentIndex < |s.dots| ==> ActiveAt(r.dots, s.currentIndex)
    ensures ArrowsMatch(r)
  {
    var offset := s.currentIndex * (s.cardWidth + s.gap);
    s.(shownTranslate := -offset,
       currentTranslate := -offset,
       prevTranslate := -offset,
       dots := seq(|s.dots|, i => i == s.currentIndex),
       prevDisabled := s.currentIndex == 0,
       nextDisabled := s.currentIndex >= s.maxIndex)
  }

  /** Rendering twice is rendering once. */
  lemma UpdateCarouselIdempotent(s: State)
    ensures UpdateCarousel(UpdateCarousel(s)) == UpdateCarousel(s)
  {
  }

  /** `buildDots`: replaces the indicator dots with one dot per resting index
      of the current layout, the first one marked active. */
  function BuildDots(s: State): (r: State)
    ensures r == s.(dots := r.dots)
    ensures s.maxIndex == MaxIndex(s.cardCount, s.visibleCards) ==> |r.dots| == s.maxIndex + 1
    ensures ActiveAt(r.dots, 0)
  {
    var n := DotCount(s.cardCount, s.visibleCards);
    s.(dots := seq(n, i => i == 0))
  }

  /** The link-click guard as written: a click on a link inside the track has
      its navigation cancelled when the live offset differs from the drag
      baseline by more than ClickSlop px. */
  function LinkClickPrevented(s: State): (b: bool)
    ensures b <==> (s.currentTranslate - s.prevTranslate > ClickSlop || s.prevTranslate - s.currentTranslate > ClickSlop)
  {
    var d := s.currentTranslate - s.prevTranslate;
    (if d < 0 then -d else d) > ClickSlop
  }

  /** Once the render step has run, the guard lets every click through. */
  lemma SettledClickNotPrevented(s: State)
    requires Settled(s)
    ensures !LinkClickPrevented(s)
  {
  }
}
