/** Worked examples of the carousel on concrete geometry: five 300 px cards
    with 20 px gaps in a 1000 px container show three cards at a time. The
    examples after the first hold in every state of that layout that
    satisfies the invariant, not just in the state right after mounting. */
module Scenarios {
  import opened CarouselState
  import opened Geometry
  import opened Render
  import opened Gesture
  import opened Carousel
  import Layout

  /** `v` cards of width `w` fit in `c` px and `v + 1` do not. */
  lemma VisibleIs(v: nat, w: nat, c: nat)
    requires Fits(v, w, c) && !Fits(v + 1, w, c)
    ensures VisibleCards(w, c) == v
  {
    VisibleCardsIsLargestFit(v, w, c);
    VisibleCardsIsLargestFit(v + 1, w, c);
  }

  /** Five 300 px cards in a 1000 px container, three visible: resting
      indices 0..2 and three dots with the first marked, at rest at index 0.
      The measurements are parameters pinned by the requires, so that the
      verifier reasons from the contracts instead of evaluating the whole
      mount on constants. */
  lemma MountFiveCards(cardCount: nat, cardWidth: nat, containerWidth: nat)
    requires cardCount == 5 && cardWidth == 300 && containerWidth == 1000
    ensures FiveCardLayout(Mount(cardCount, cardWidth, containerWidth))
    ensures Mount(cardCount, cardWidth, containerWidth).maxIndex == 2
    ensures Mount(cardCount, cardWidth, containerWidth).currentIndex == 0
    ensures Mount(cardCount, cardWidth, containerWidth).dots == [true, false, false]
  {
    VisibleIs(3, 300, 1000);
    MountEstablishesInv(cardCount, cardWidth, containerWidth);
    MountRestsOnFirstCard(cardCount, cardWidth, containerWidth);
    FirstOfThreeMarked(Mount(cardCount, cardWidth, containerWidth).dots);
  }

  /** Three dots with the first one the active one. */
  lemma FirstOfThreeMarked(d: seq<bool>)
    requires |d| == 3 && ActiveAt(d, 0)
    ensures d == [true, false, false]
  {
  }

  /** The five-card layout in 1000 px, in some state of the invariant. */
  predicate FiveCardLayout(s: State)
  {
    Inv(s) && s.cardCount == 5 && s.cardWidth == 300 && s.visibleCards == 3
  }

  /** A 100 px swipe to the left advances from index 0 to 1 and marks the
      second dot; a 30 px one snaps back to 0. */
  lemma SwipeFromFirstCard(s: State)
    requires FiveCardLayout(s) && !s.isDragging && s.currentIndex == 0
    ensures Run(s, [PointerDown(500), PointerMove(400), PointerUp]).currentIndex == 1
    ensures Run(s, [PointerDown(500), PointerMove(400), PointerUp]).dots == [false, true, false]
    ensures Run(s, [PointerDown(500), PointerMove(470), PointerUp]).currentIndex == 0
  {
    Swipe(s, 500, [400]);
    Swipe(s, 500, [470]);
    var r := Run(s, [PointerDown(500), PointerMove(400), PointerUp]);
    assert r == DragEnd(Moves(DragStart(s, 500), [400]));
    assert |r.dots| == 3 && ActiveAt(r.dots, 1);
  }

  /** From index 1, an 80 px swipe to the right retreats to index 0. */
  lemma SwipeBackFromSecondCard(s: State)
    requires FiveCardLayout(s) && !s.isDragging && s.currentIndex == 1
    ensures Run(s, [PointerDown(500), PointerMove(580), PointerUp]).currentIndex == 0
  {
    Swipe(s, 500, [580]);
  }

  /** Shrinking the container to 700 px shows two cards: the last resting
      index grows from 2 to 3 and four dots are built, while the index is
      kept. */
  lemma ShrinkToTwoVisible(s: State)
    requires FiveCardLayout(s)
    ensures var r := Step(s, WindowResize(300, 700));
      r.visibleCards == 2 && r.maxIndex == 3 && |r.dots| == 4 && r.currentIndex == s.currentIndex
  {
    VisibleIs(2, 300, 700);
  }

  /** Widening the container to 1700 px shows all five cards: the index is
      lowered to the only resting index, 0, and a single dot remains. */
  lemma WidenToAllVisible(s: State)
    requires FiveCardLayout(s)
    ensures var r := Step(s, WindowResize(300, 1700));
      r.visibleCards == 5 && r.maxIndex == 0 && |r.dots| == 1 && r.currentIndex == 0
  {
    VisibleIs(5, 300, 1700);
  }

  /** After a same-size resize at index 2 the first dot is the marked one. */
  lemma ResizeLeavesFirstDotMarked(s: State)
    requires FiveCardLayout(s) && s.currentIndex == 2
    ensures var r := Step(s, WindowResize(300, 1000));
      r.currentIndex == 2 && r.dots == [true, false, false]
  {
    VisibleIs(3, 300, 1000);
    FirstOfThreeMarked(Step(s, WindowResize(300, 1000)).dots);
  }

  /** A 100 px drag, released: the guard as written lets the following link
      click through; the corrected guard cancels it. */
  lemma DragThenClick(s: State)
    requires FiveCardLayout(s) && !s.isDragging
    ensures !LinkClickPrevented(Run(s, [PointerDown(500), PointerMove(400), PointerUp]))
    ensures LinkClickPreventedAfterRelease(Run(s, [PointerDown(500), PointerMove(400), PointerUp]))
  {
    Swipe(s, 500, [400]);
    assert Run(s, [PointerDown(500), PointerMove(400), PointerUp]) == DragEnd(Moves(DragStart(s, 500), [400]));
  }

  /** A 3 px tap, released: the corrected guard lets the click through. */
  lemma TapThenClick(s: State)
    requires FiveCardLayout(s) && !s.isDragging
    ensures !LinkClickPreventedAfterRelease(Run(s, [PointerDown(500), PointerMove(503), PointerUp]))
  {
    Swipe(s, 500, [503]);
    assert Run(s, [PointerDown(500), PointerMove(503), PointerUp]) == DragEnd(Moves(DragStart(s, 500), [503]));
  }

  /** A container narrower than one card shows none: with three 300 px
      cards in 200 px the last resting index is 3, one past the last card, and
      three "next" clicks reach it. */
  lemma NarrowContainerScrollsPastLastCard(cardCount: nat, cardWidth: nat, containerWidth: nat)
    requires cardCount == 3 && cardWidth == 300 && containerWidth == 200
    ensures Mount(cardCount, cardWidth, containerWidth).visibleCards == 0
    ensures Mount(cardCount, cardWidth, containerWidth).maxIndex == 3
    ensures Deliverable(Mount(cardCount, cardWidth, containerWidth), [NextClick, NextClick, NextClick])
    ensures Run(Mount(cardCount, cardWidth, containerWidth), [NextClick, NextClick, NextClick]).currentIndex == 3
  {
    VisibleIs(0, 300, 200);
    MountRestsOnFirstCard(cardCount, cardWidth, containerWidth);
    ThreeNextClicks(Mount(cardCount, cardWidth, containerWidth));
  }

  /** From index 0 with three resting indices beyond it, three "next" clicks
      reach the last. */
  lemma ThreeNextClicks(s: State)
    requires s.currentIndex == 0 && s.maxIndex == 3
    ensures Deliverable(s, [NextClick, NextClick, NextClick])
    ensures Run(s, [NextClick, NextClick, NextClick]).currentIndex == 3
  {
    WithoutDotClicksDeliverable(s, [NextClick, NextClick, NextClick]);
    var s1 := Step(s, NextClick);
    var s2 := Step(s1, NextClick);
    assert [NextClick, NextClick, NextClick][1..] == [NextClick, NextClick];
    assert [NextClick, NextClick][1..] == [NextClick];
    assert Run(s, [NextClick, NextClick, NextClick]) == Run(s2, [NextClick]);
  }
}
