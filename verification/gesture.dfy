/** The drag/swipe tracker: `dragStart`, `dragMove`, `dragEnd`
    (script.js:122-149). Pointer positions arrive as integers (the page's
    `pageX` / `clientX`).
 */
module Gesture {
  import opened CarouselState
  import opened Render

  /** `dragStart`: a gesture begins at pointer position `x`. */
  function DragStart(s: State, x: int): (r: State)
    ensures r.isDragging && r.startX == x && r.releasedBy == 0
    ensures SameLayout(s, r) && SameRender(s, r)
  {
    s.(isDragging := true, startX := x, releasedBy := 0)
  }

  /** `dragMove`: while dragging, the track follows the pointer one to one from
      the drag baseline; otherwise nothing happens. */
  function DragMove(s: State, x: int): (r: State)
    ensures !s.isDragging ==> r == s
    ensures s.isDragging ==> r.currentTranslate - r.prevTranslate == x - r.startX
    ensures r.shownTranslate == r.currentTranslate || r == s
    ensures SameModel(s, r) && r.prevTranslate == s.prevTranslate && r.dots == s.dots
    ensures r.prevDisabled == s.prevDisabled && r.nextDisabled == s.nextDisabled
  {
    if !s.isDragging then s
    else
      var translate := s.prevTranslate + (x - s.startX);
      s.(currentTranslate := translate, shownTranslate := translate)
  }

  /** Where the index goes when a gesture that moved the track by `movedBy` px
      is released: one forward past -SwipeThreshold if not at the end, one back
      past +SwipeThreshold if not at the start, otherwise it stays. */
  function Resolve(index: nat, maxIndex: nat, movedBy: int): (j: nat)
    ensures index <= maxIndex ==> j <= maxIndex
    ensures j == index + 1 <==> movedBy < -SwipeThreshold && index < maxIndex
    ensures j + 1 == index <==> movedBy > SwipeThreshold && index > 0
    ensures j == index || j == index + 1 || j + 1 == index
  {
    if movedBy < -SwipeThreshold && index < maxIndex then index + 1
    else if movedBy > SwipeThreshold && index > 0 then index - 1
    else index
  }

  /** `dragEnd`: a release outside a gesture does nothing; otherwise the
      gesture ends, its displacement decides the new index, and the track is
      re-rendered at that index. `releasedBy` records the displacement for the
      corrected click guard; the source has no such variable. */
  function DragEnd(s: State): (r: State)
    ensures !s.isDragging ==> r == s
    ensures s.isDragging ==> !r.isDragging && Settled(r) && ArrowsMatch(r)
    ensures s.isDragging ==> r.releasedBy == s.currentTranslate - s.prevTranslate
    ensures s.isDragging ==>
      r.currentIndex == Resolve(s.currentIndex, s.maxIndex, s.currentTranslate - s.prevTranslate)
    ensures s.isDragging && r.currentIndex < |r.dots| ==> ActiveAt(r.dots, r.currentIndex)
    ensures SameLayout(s.(currentIndex := r.currentIndex), r) && r.startX == s.startX
    ensures |r.dots| == |s.dots|
  {
    if !s.isDragging then s
    else
      var movedBy := s.currentTranslate - s.prevTranslate;
      var index := Resolve(s.currentIndex, s.maxIndex, movedBy);
      UpdateCarousel(s.(isDragging := false, currentIndex := index, releasedBy := movedBy))
  }

  /** The state after a gesture's successive pointer moves to `xs`. */
  function Moves(s: State, xs: seq<int>): State
    decreases |xs|
  {
    if |xs| == 0 then s else DragMove(Moves(s, xs[..|xs| - 1]), xs[|xs| - 1])
  }

  /** Pointer moves leave the index, the baseline and the gesture start alone. */
  lemma {:induction false} MovesKeepModel(s: State, xs: seq<int>)
    ensures SameModel(s, Moves(s, xs))
    ensures Moves(s, xs).prevTranslate == s.prevTranslate
    ensures |Moves(s, xs).dots| == |s.dots|
    decreases |xs|
  {
    if |xs| > 0 {
      MovesKeepModel(s, xs[..|xs| - 1]);
    }
  }

  /** The displacement a gesture is released with: the last pointer position
      minus the start position, or 0 when the pointer never moved. */
  function Displacement(x0: int, xs: seq<int>): int
  {
    if |xs| == 0 then 0 else xs[|xs| - 1] - x0
  }

  /** A gesture started from a state whose offsets agree ends, after any
      sequence of moves, still dragging and with `movedBy` equal to the last
      move's displacement from the start position (0 without moves). */
  lemma {:induction false} GestureDisplacement(s: State, x0: int, xs: seq<int>)
    requires s.currentTranslate == s.prevTranslate
    ensures Moves(DragStart(s, x0), xs).isDragging
    ensures Moves(DragStart(s, x0), xs).startX == x0
    ensures Moves(DragStart(s, x0), xs).currentTranslate - Moves(DragStart(s, x0), xs).prevTranslate
         == Displacement(x0, xs)
    decreases |xs|
  {
    if |xs| > 0 {
      GestureDisplacement(s, x0, xs[..|xs| - 1]);
    }
  }

  /** A whole gesture: press at `x0`, moves through `xs`, release. From a
      settled, in-bounds state the index ends where Resolve puts it for the
      gesture's displacement, and the track is settled again. */
  lemma Swipe(s: State, x0: int, xs: seq<int>)
    requires Settled(s) && s.currentIndex <= s.maxIndex
    ensures DragEnd(Moves(DragStart(s, x0), xs)).currentIndex
         == Resolve(s.currentIndex, s.maxIndex, Displacement(x0, xs))
    ensures DragEnd(Moves(DragStart(s, x0), xs)).releasedBy == Displacement(x0, xs)
    ensures Settled(DragEnd(Moves(DragStart(s, x0), xs)))
  {
    GestureDisplacement(s, x0, xs);
    MovesKeepModel(DragStart(s, x0), xs);
  }

  /** The click guard the gesture evidently intends: cancel a link's
      navigation when the gesture that just ended moved the track by more
      than ClickSlop px. */
  function LinkClickPreventedAfterRelease(s: State): (b: bool)
    ensures b <==> (s.releasedBy > ClickSlop || s.releasedBy < -ClickSlop)
  {
    (if s.releasedBy < 0 then -s.releasedBy else s.releasedBy) > ClickSlop
  }

  /** With the corrected guard, the click that follows a release is cancelled
      exactly when the gesture moved more than ClickSlop px: a tap goes
      through, a drag does not. */
  lemma ReleasedClickPreventedIffDragged(s: State, x0: int, xs: seq<int>)
    requires Settled(s) && s.currentIndex <= s.maxIndex
    ensures LinkClickPreventedAfterRelease(DragEnd(Moves(DragStart(s, x0), xs)))
        <==> (Displacement(x0, xs) > ClickSlop || Displacement(x0, xs) < -ClickSlop)
  {
    Swipe(s, x0, xs);
  }

  /** The guard as written lets the click after every release through, since
      the release re-renders and so re-synchronises the two offsets it
      compares, however far the gesture moved. */
  lemma ReleasedClickNeverPrevented(s: State, x0: int, xs: seq<int>)
    requires Settled(s) && s.currentIndex <= s.maxIndex
    ensures !LinkClickPrevented(DragEnd(Moves(DragStart(s, x0), xs)))
  {
    Swipe(s, x0, xs);
  }
}
