/** The carousel as one state machine: every event the page delivers to it
    (script.js:110-176) is a transition of the state record, and the index
    invariant `0 <= currentIndex <= maxIndex` holds in every state reachable
    from mounting.
 */
module Carousel {
  import opened CarouselState
  import opened Geometry
  import opened Render
  import Layout
  import Gesture

  /** The events the carousel listens to. */
  datatype Event =
    | PrevClick                                   // "previous" arrow clicked
    | NextClick                                   // "next" arrow clicked
    | KeyDown(key: string)                        // key pressed in the carousel region
    | DotClick(i: nat)                            // indicator dot `i` clicked
    | PointerDown(x: int)                         // mousedown / touchstart at X = x
    | PointerMove(x: int)                         // mousemove / touchmove at X = x
    | PointerUp                                   // mouseup / mouseleave / touchend
    | WindowResize(cardWidth: nat, containerWidth: nat)  // window resized; new measurements

  /** One step back, re-rendered, unless the index is already 0. */
  function Retreat(s: State): (r: State)
    ensures s.currentIndex == 0 ==> r == s
    ensures s.currentIndex > 0 ==>
      && r.currentIndex == s.currentIndex - 1
      && Settled(r) && ArrowsMatch(r) && ActiveAt(r.dots, r.currentIndex) == (r.currentIndex < |s.dots|)
    ensures |r.dots| == |s.dots|
    ensures SameModel(s.(currentIndex := r.currentIndex), r)
  {
    if s.currentIndex > 0 then UpdateCarousel(s.(currentIndex := s.currentIndex - 1)) else s
  }

  /** One step forward, re-rendered, unless the index is already at (or past)
      the last resting index. */
  function Advance(s: State): (r: State)
    ensures s.currentIndex >= s.maxIndex ==> r == s
    ensures s.currentIndex < s.maxIndex ==>
      && r.currentIndex == s.currentIndex + 1
      && Settled(r) && ArrowsMatch(r) && ActiveAt(r.dots, r.currentIndex) == (r.currentIndex < |s.dots|)
    ensures |r.dots| == |s.dots|
    ensures SameModel(s.(currentIndex := r.currentIndex), r)
  {
    if s.currentIndex < s.maxIndex then UpdateCarousel(s.(currentIndex := s.currentIndex + 1)) else s
  }

  /** The keydown handler: ArrowLeft retreats, ArrowRight advances, any other
      key does nothing. The two tests run one after the other on the updated
      state, as in the source. */
  function Key(s: State, key: string): (r: State)
    ensures key == "ArrowLeft" ==> r == Retreat(s)
    ensures key == "ArrowRight" ==> r == Advance(s)
    ensures key != "ArrowLeft" && key != "ArrowRight" ==> r == s
  {
    var s1 := if key == "ArrowLeft" then Retreat(s) else s;
    if key == "ArrowRight" then Advance(s1) else s1
  }

  /** The click handler of dot `i`: jump to index `i` without any bound check,
      then re-render. */
  function JumpTo(s: State, i: nat): (r: State)
    ensures r.currentIndex == i && Settled(r) && ArrowsMatch(r)
    ensures i < |s.dots| ==> ActiveAt(r.dots, i)
    ensures |r.dots| == |s.dots|
    ensures SameModel(s.(currentIndex := i), r)
  {
    UpdateCarousel(s.(currentIndex := i))
  }

  /** An event can reach the carousel in state `s`: a dot click needs that
      dot to exist, which is how the source keeps jumps in range. */
  predicate Enabled(s: State, e: Event)
  {
    e.DotClick? ==> e.i < |s.dots|
  }

  /** The transition for one event. A link click is answered right after the
      event that precedes it, so every event other than the release of a
      gesture also clears the displacement the corrected click guard reads. */
  function Step(s: State, e: Event): State
    requires Enabled(s, e)
  {
    var r := (
      match e
      case PrevClick => Retreat(s)
      case NextClick => Advance(s)
      case KeyDown(key) => Key(s, key)
      case DotClick(i) => JumpTo(s, i)
      case PointerDown(x) => Gesture.DragStart(s, x)
      case PointerMove(x) => Gesture.DragMove(s, x)
      case PointerUp => Gesture.DragEnd(s)
      case WindowResize(w, c) => Layout.Resize(s, w, c));
    if e.PointerUp? && s.isDragging then r else r.(releasedBy := 0)
  }

  /** Every event of `es` can be delivered in turn starting from `s`. */
  predicate Deliverable(s: State, es: seq<Event>)
    decreases |es|
  {
    |es| == 0 || (Enabled(s, es[0]) && Deliverable(Step(s, es[0]), es[1..]))
  }

  /** Only dot clicks can be undeliverable: any sequence without them can
      be delivered from any state. */
  lemma {:induction false} WithoutDotClicksDeliverable(s: State, es: seq<Event>)
    requires forall k :: 0 <= k < |es| ==> !es[k].DotClick?
    ensures Deliverable(s, es)
    decreases |es|
  {
    if |es| > 0 {
      assert !es[0].DotClick?;
      WithoutDotClicksDeliverable(Step(s, es[0]), es[1..]);
    }
  }

  /** The state after the events `es`, in order. */
  function Run(s: State, es: seq<Event>): State
    requires Deliverable(s, es)
    decreases |es|
  {
    if |es| == 0 then s else Run(Step(s, es[0]), es[1..])
  }

  /** Mounting: the fresh state, then the initial layout pass and dots. */
  function Mount(cardCount: nat, cardWidth: nat, containerWidth: nat): State
  {
    Layout.Resize(Fresh(cardCount), cardWidth, containerWidth)
  }

  /** The carousel's invariant. */
  predicate Inv(s: State)
  {
    && s.gap == Gap
    && s.maxIndex == MaxIndex(s.cardCount, s.visibleCards)
    && s.currentIndex <= s.maxIndex
    && |s.dots| == s.maxIndex + 1
    && (ActiveAt(s.dots, s.currentIndex) || ActiveAt(s.dots, 0))
    && s.prevTranslate == RestingTranslate(s, s.currentIndex)
    && (!s.isDragging ==> s.currentTranslate == s.prevTranslate)
    && s.shownTranslate == s.currentTranslate
    && (s.cardCount > 0 ==> ArrowsMatch(s))
  }

  /** Mounting establishes the invariant, whatever the geometry. */
  lemma MountEstablishesInv(cardCount: nat, cardWidth: nat, containerWidth: nat)
    ensures Inv(Mount(cardCount, cardWidth, containerWidth))
  {
  }

  /** Mounting leaves the carousel at rest on the first card, with the
      layout of the measured geometry and the first dot marked. */
  lemma MountRestsOnFirstCard(cardCount: nat, cardWidth: nat, containerWidth: nat)
    ensures var s := Mount(cardCount, cardWidth, containerWidth);
      && s.currentIndex == 0 && !s.isDragging && Settled(s)
      && (cardCount > 0 ==> s.visibleCards == VisibleCards(cardWidth, containerWidth))
      && s.maxIndex == MaxIndex(cardCount, s.visibleCards)
      && |s.dots| == s.maxIndex + 1 && ActiveAt(s.dots, 0)
  {
  }

  /** Every event preserves the invariant. */
  lemma StepPreservesInv(s: State, e: Event)
    requires Inv(s) && Enabled(s, e)
    ensures Inv(Step(s, e))
  {
    match e
    case WindowResize(w, c) =>
      var r := Layout.Recalc(s, w, c);
      assert r.maxIndex == MaxIndex(r.cardCount, r.visibleCards);
    case _ =>
  }

  /** Every sequence of events preserves the invariant. */
  lemma {:induction false} RunPreservesInv(s: State, es: seq<Event>)
    requires Inv(s) && Deliverable(s, es)
    ensures Inv(Run(s, es))
    decreases |es|
  {
    if |es| > 0 {
      StepPreservesInv(s, es[0]);
      RunPreservesInv(Step(s, es[0]), es[1..]);
    }
  }

  /** Every state reachable from mounting keeps the index within
      [0, maxIndex], with maxIndex + 1 dots. */
  lemma ReachableIndexInBounds(cardCount: nat, cardWidth: nat, containerWidth: nat, es: seq<Event>)
    requires Deliverable(Mount(cardCount, cardWidth, containerWidth), es)
    ensures Run(Mount(cardCount, cardWidth, containerWidth), es).currentIndex
         <= Run(Mount(cardCount, cardWidth, containerWidth), es).maxIndex
    ensures |Run(Mount(cardCount, cardWidth, containerWidth), es).dots|
         == Run(Mount(cardCount, cardWidth, containerWidth), es).maxIndex + 1
  {
    MountEstablishesInv(cardCount, cardWidth, containerWidth);
    RunPreservesInv(Mount(cardCount, cardWidth, containerWidth), es);
  }

  /** Under the invariant, every dot that exists names a valid resting index,
      so a dot click lands in bounds. */
  lemma DotsAreRestingIndices(s: State, i: nat)
    requires Inv(s) && i < |s.dots|
    ensures Step(s, DotClick(i)).currentIndex <= Step(s, DotClick(i)).maxIndex
    ensures ActiveAt(Step(s, DotClick(i)).dots, i)
  {
  }

  /** Under the invariant a marked dot is the current index's dot or, after a
      resize, the first one. */
  lemma MarkedDotIsIndexOrFirst(s: State, k: int)
    requires Inv(s) && 0 <= k < |s.dots| && s.dots[k]
    ensures k == s.currentIndex || k == 0
  {
  }

  /** With the corrected guard, a link click is cancelled exactly when the
      event just before it released a gesture that moved the track by more
      than ClickSlop px. */
  lemma CorrectedGuardFiresOnlyAfterDrag(s: State, e: Event)
    requires Enabled(s, e)
    ensures Gesture.LinkClickPreventedAfterRelease(Step(s, e))
        <==> (&& e.PointerUp? && s.isDragging
              && (s.currentTranslate - s.prevTranslate > ClickSlop
                  || s.currentTranslate - s.prevTranslate < -ClickSlop))
  {
  }

  /** Outside a gesture the track rests at the index's offset, so the link
      guard as written can only cancel a click in the middle of a gesture. */
  lemma ClickPreventedOnlyWhileDragging(s: State)
    requires Inv(s) && LinkClickPrevented(s)
    ensures s.isDragging
  {
  }

  /** The arrows and arrow keys move the index by exactly one within bounds and
      are no-ops at the bounds. */
  lemma ArrowsRespectBounds(s: State, e: Event)
    requires Inv(s)
    requires e == PrevClick || e == NextClick || e == KeyDown("ArrowLeft") || e == KeyDown("ArrowRight")
    ensures var back := e == PrevClick || e == KeyDown("ArrowLeft");
      && (back && s.currentIndex > 0 ==> Step(s, e).currentIndex == s.currentIndex - 1)
      && (!back && s.currentIndex < s.maxIndex ==> Step(s, e).currentIndex == s.currentIndex + 1)
      && (back && s.currentIndex == 0 ==> Step(s, e) == s.(releasedBy := 0))
      && (!back && s.currentIndex == s.maxIndex ==> Step(s, e) == s.(releasedBy := 0))
  {
  }

  /** At index 0 with cards present, "previous" is disabled and stays so after
      a previous-click; at the last index, likewise for "next". */
  lemma BoundaryControlsStayDisabled(s: State)
    requires Inv(s) && s.cardCount > 0
    ensures s.currentIndex == 0 ==> s.prevDisabled && Step(s, PrevClick).prevDisabled
    ensures s.currentIndex == s.maxIndex ==> s.nextDisabled && Step(s, NextClick).nextDisabled
  {
  }

  /** A dot click, an arrow or key that moved, and a release all re-render:
      the marked dot is the current index. */
  lemma ActiveDotFollowsIndex(s: State, e: Event)
    requires Inv(s) && Enabled(s, e)
    requires || e.DotClick?
             || (e == PointerUp && s.isDragging)
             || (e == PrevClick && s.currentIndex > 0)
             || (e == NextClick && s.currentIndex < s.maxIndex)
    ensures ActiveAt(Step(s, e).dots, Step(s, e).currentIndex)
  {
  }

  /** After a resize the rebuilt dots mark the first one active, whatever the
      index: the source rebuilds the dots after re-rendering, not before. */
  lemma ResizeMarksFirstDot(s: State, cardWidth: nat, containerWidth: nat)
    ensures ActiveAt(Step(s, WindowResize(cardWidth, containerWidth)).dots, 0)
  {
  }

  /** Replays the event queue, one handler at a time. */
  method Replay(s: State, es: seq<Event>) returns (r: State)
    requires Inv(s) && Deliverable(s, es)
    ensures r == Run(s, es)
    ensures Inv(r)
  {
    r := s;
    var k := 0;
    while k < |es|
      invariant 0 <= k <= |es|
      invariant Inv(r)
      invariant Deliverable(r, es[k..])
      invariant Run(r, es[k..]) == Run(s, es)
    {
      assert es[k..][0] == es[k] && es[k..][1..] == es[k + 1..];
      StepPreservesInv(r, es[k]);
      r := Step(r, es[k]);
      k := k + 1;
    }
  }
}
