# Carousel of the Lazarus Sensors site, modelled in Dafny

This project models the draggable card carousel of the site's interaction
script (`script.js`, lines 44-177). The carousel is a small integer state
machine. It measures the cards and their container to find how many cards
are visible and the last resting index. It moves a current index with the
arrow buttons, the arrow keys, the indicator dots and swipe gestures. Its
render step, `updateCarousel`, turns the index into a track offset, a marked
dot and the arrows' disabled flags.

The closure's variables become one immutable record,
`CarouselState.State`. Each handler becomes a pure function on that record.
`Carousel.Step` dispatches one event, `Carousel.Run` replays a sequence of
them, and `Carousel.Mount` is the initial `recalc(); buildDots();`. The main
result is `Carousel.StepPreservesInv`: every event preserves
`0 <= currentIndex <= maxIndex`, `maxIndex = max(0, cardCount - visibleCards)`
and `maxIndex + 1` dots. Under the same invariant, the drag baseline sits at
the index's resting offset and, outside a gesture, so does the live offset.

Modules, in dependency order:

- `CarouselState` (state.dfy): the record, the constants (20 px gap, 60 px
  swipe threshold, 5 px click slop) and the predicates shared by the rest.
- `Geometry` (geometry.dfy): visible-card count, last resting index, dot
  count.
- `Render` (render.dfy): `updateCarousel`, `buildDots`, the link-click guard.
- `Layout` (layout.dfy): `recalc` and the resize handler.
- `Gesture` (gesture.dfy): `dragStart`, `dragMove`, `dragEnd`, whole-gesture
  lemmas, and the corrected click guard.
- `Carousel` (carousel.dfy): the event type, the arrow, key and dot handlers,
  `Step`, `Run`, the invariant and its preservation.
- `Scenarios` (scenarios.dfy): worked examples on five 300 px cards.

Behaviours of `script.js` that the model keeps as written:

- `visibleCards` is not clamped to at least 1 (script.js:70). When the
  container is narrower than one card it is 0, and `maxIndex` equals the
  card count. "Next" can then scroll one position past the last card (see
  `Scenarios.NarrowContainerScrollsPastLastCard`).
- The "next" arrow is disabled when `currentIndex >= maxIndex`
  (script.js:90).
- A dot click assigns its index with no check (script.js:103). A click on
  dot `i` can only be delivered when dot `i` exists (`Carousel.Enabled`).
  Because of that, and because the invariant keeps `maxIndex + 1` dots, the
  jump stays in bounds.
- After a resize, `buildDots` runs after the render step, so the first dot
  is marked active whatever the index (script.js:100, 174). The model keeps
  this behaviour (`Carousel.ResizeMarksFirstDot`).

## Model

| member | source | states |
|---|---|---|
| `Geometry.VisibleCards` | script.js:70 | the visible count is a number of cards that fit side by side with 20 px gaps, while one more card would not fit; it is not clamped to 1 |
| `Geometry.VisibleCardsIsLargestFit` | script.js:70 | `v` cards fit in the container exactly when `v <= visibleCards`, so the floor division picks the largest count that fits |
| `Geometry.NoVisibleCardIffNarrowContainer` | script.js:70 | no card is visible exactly when the container is narrower than one card |
| `Geometry.MaxIndex` | script.js:71 | the window of visible cards starting at the last index reaches the last card; the last index is 0 when every card is visible |
| `Geometry.MaxIndexIsLeastCovering` | script.js:71 | the last index is the smallest index whose visible window reaches the last card |
| `Geometry.DotCount` | script.js:97 | the number of dots built is at least 1 and equals `maxIndex + 1` for the same layout, so there is one dot per resting index |
| `Render.UpdateCarousel` | script.js:76-91 | after rendering, both offsets and the drawn transform equal `-(index * (cardWidth + gap))`; exactly the dot at the index is marked; "previous" is disabled iff the index is 0 and "next" iff it is at or past `maxIndex`; layout, index and drag state are unchanged |
| `Render.UpdateCarouselIdempotent` | script.js:76-91 | rendering twice gives the same state as rendering once |
| `Render.BuildDots` | script.js:94-101 | rebuilding the dots leaves the rest of the state alone, builds `maxIndex + 1` dots when `maxIndex` matches the layout, and marks only the first one |
| `Render.LinkClickPrevented` | script.js:160-166 | a link click is cancelled exactly when the live offset and the drag baseline differ by more than 5 px |
| `Render.SettledClickNotPrevented` | script.js:162 | right after a render, the guard never cancels a click |
| `Layout.Recalc` | script.js:64-74 | with no cards nothing changes; otherwise the new width and the gap are taken, the visible count and last index are recomputed, and the index is kept if within the new bound or else lowered to it; the offsets, arrow flags and dot marks are rendered for that index |
| `Layout.RecalcIdempotent` | script.js:64-74 | a second layout pass with unchanged geometry yields the identical state |
| `Layout.Resize` | script.js:174 | apart from the dots the result is exactly the layout pass's: the card count and drag flag are kept; with cards present the layout matches the new geometry, the index is kept when still within the new bound and never grows, and the track is settled with matching arrows; the dot count is `maxIndex + 1` and the first dot is marked |
| `Layout.ResizeIdempotent` | script.js:174 | a second resize with the same geometry yields the identical state |
| `Gesture.DragStart` | script.js:122-127 | pressing starts a gesture at the pointer's X; the layout, the index and everything drawn stay as they were |
| `Gesture.DragMove` | script.js:129-135 | outside a gesture a move does nothing; during one the live offset minus the baseline equals the pointer's X minus the start X; the index, baseline and start X are unchanged |
| `Gesture.Resolve` | script.js:143-147 | the index advances exactly when the gesture moved by less than -60 px and the index is below `maxIndex`; it retreats exactly when it moved by more than 60 px and the index is above 0; it moves by at most one and stays within `[0, maxIndex]` |
| `Gesture.DragEnd` | script.js:137-149 | a release outside a gesture does nothing; otherwise dragging stops and the index becomes `Resolve` of the displacement (the ±60 px rule, including no move past either bound), by at most one and within bounds; geometry and start X are unchanged, and the track is rendered at the result |
| `Gesture.MovesKeepModel` | script.js:129-135 | any number of pointer moves leaves layout, index, baseline, start X and dot count unchanged |
| `Gesture.GestureDisplacement` | script.js:122-141 | a gesture begun with agreeing offsets is still in progress after any moves, and its `movedBy` is the last move's X minus the start X, or 0 without moves |
| `Gesture.Swipe` | script.js:122-149 | a whole press-move-release from a settled state ends at the index the ±60 px rule gives for the gesture's displacement, settled again |
| `Gesture.LinkClickPreventedAfterRelease` | script.js:160-166 | corrected guard: a click is cancelled exactly when the recorded release displacement exceeds 5 px; the record is set by a gesture's release and cleared by every other event (`Carousel.Step`), so only the click that directly follows a drag is cancelled |
| `Gesture.ReleasedClickPreventedIffDragged` | script.js:137-166 | with the corrected guard, the click after a release is cancelled iff the gesture's displacement exceeds 5 px |
| `Gesture.ReleasedClickNeverPrevented` | script.js:137-166 | with the guard as written, the click after a release is never cancelled, however far the gesture moved |
| `Carousel.Retreat` | script.js:111-113 | at index 0 "previous" leaves the state unchanged; otherwise the index drops by one and the result is rendered; geometry and drag state are unchanged |
| `Carousel.Advance` | script.js:115-117 | at or past `maxIndex` "next" leaves the state unchanged; otherwise the index grows by one and the result is rendered; geometry and drag state are unchanged |
| `Carousel.Key` | script.js:169-172 | ArrowLeft acts as "previous", ArrowRight as "next", and any other key changes nothing |
| `Carousel.JumpTo` | script.js:102-105 | a click on dot `i` makes `i` the index and renders, marking that dot; geometry and drag state are unchanged |
| `Carousel.WithoutDotClicksDeliverable` | script.js:102-105 | only dot clicks have a delivery condition: any event sequence without them can be replayed from any state |
| `Carousel.MountEstablishesInv` | script.js:174-176 | mounting establishes the invariant for every card count and geometry, including zero cards |
| `Carousel.MountRestsOnFirstCard` | script.js:175-176 | after mounting the carousel is at index 0, not dragging and settled, has the layout of the measured geometry, and marks the first of `maxIndex + 1` dots |
| `Carousel.StepPreservesInv` | script.js:110-176 | every event preserves the invariant: index within `[0, maxIndex]`, `maxIndex` matching the layout, `maxIndex + 1` dots with one marked, baseline at the index's resting offset, offsets equal outside a gesture, transform showing the live offset, and arrow flags right once cards exist |
| `Carousel.RunPreservesInv` | script.js:110-176 | every deliverable sequence of events preserves the invariant |
| `Carousel.ReachableIndexInBounds` | script.js:110-176 | in every state reachable from mounting the index is at most `maxIndex` and there are `maxIndex + 1` dots |
| `Carousel.DotsAreRestingIndices` | script.js:97-105 | under the invariant every existing dot names a valid index, so a dot click lands in bounds and marks that dot |
| `Carousel.MarkedDotIsIndexOrFirst` | script.js:84-100 | under the invariant a marked dot is either the current index's dot or, after a resize rebuilt the dots, the first one |
| `Carousel.CorrectedGuardFiresOnlyAfterDrag` | script.js:137-166 | with the corrected guard, a link click after any event is cancelled exactly when that event released a gesture that moved the track by more than 5 px; after arrows, keys, dot clicks, resizes, presses and moves it goes through |
| `Carousel.ClickPreventedOnlyWhileDragging` | script.js:160-166 | under the invariant the guard as written can only cancel a click while a gesture is in progress |
| `Carousel.ArrowsRespectBounds` | script.js:111-117 | "previous"/ArrowLeft go back one exactly when the index is above 0 and change nothing at 0; "next"/ArrowRight go forward one below `maxIndex` and change nothing at it (beyond clearing the recorded release displacement, which is not page state) |
| `Carousel.BoundaryControlsStayDisabled` | script.js:89-90 | with cards present, "previous" is disabled at index 0 and stays disabled after a click on it; likewise "next" at `maxIndex` |
| `Carousel.ActiveDotFollowsIndex` | script.js:84-86 | after a dot click, a moving arrow click or a release, exactly the dot at the current index is marked |
| `Carousel.ResizeMarksFirstDot` | script.js:94-100 | after a resize exactly the first dot is marked, whatever the index |
| `Carousel.Replay` | script.js:151-176 | handling a queue of events one at a time gives `Run` of the queue and keeps the invariant |
| `Scenarios.MountFiveCards` | script.js:64-74 | five 300 px cards in 1000 px: three visible, last index 2, three dots with the first marked, index 0 |
| `Scenarios.SwipeFromFirstCard` | script.js:137-149 | from index 0, a -100 px swipe advances to 1 and marks the second dot; a -30 px swipe snaps back to 0 |
| `Scenarios.SwipeBackFromSecondCard` | script.js:145-146 | from index 1, a +80 px swipe retreats to 0 |
| `Scenarios.ShrinkToTwoVisible` | script.js:70-72 | shrinking to 700 px gives two visible cards, last index 3 and four dots, and keeps the index |
| `Scenarios.WidenToAllVisible` | script.js:70-72 | widening to 1700 px shows all five cards and lowers the index to 0, with one dot |
| `Scenarios.ResizeLeavesFirstDotMarked` | script.js:94-100 | a same-size resize at index 2 leaves the dots as first-marked |
| `Scenarios.DragThenClick` | script.js:160-166 | after a released 100 px drag, the guard as written lets the click through and the corrected guard cancels it |
| `Scenarios.TapThenClick` | script.js:160-166 | after a released 3 px tap, the corrected guard lets the click through |
| `Scenarios.NarrowContainerScrollsPastLastCard` | script.js:70-71 | three 300 px cards in 200 px: no card visible, last index 3, and three "next" clicks reach index 3 |

## Left out

- Everything in script.js outside the carousel: the nav scroll class, the mobile menu, smooth anchor scrolling, the reveal observer, the counter animation, the demo form and the clock. They are DOM and timer plumbing with no carousel state. The counter also uses floating point and `requestAnimationFrame`.
- The missing-track case (script.js:50): without a track the carousel is never set up, so there is nothing to model.
- The `animate` argument of `updateCarousel`, the CSS `transition` it selects, and the `transition = 'none'` in `dragStart`. These are CSS strings that do not affect the state.
- The `grabbing` class, the dot class names and `aria-label` text. These are presentation only.
- `getPositionX` (script.js:120): pointer X arrives as an integer in `PointerDown`/`PointerMove`. Fractional `pageX` values are not modelled.
- Listener registration and passive touch listeners (script.js:151-157). Each listener appears as the event it delivers: `PointerUp` stands for mouseup, mouseleave and touchend.
- The optional-element guards (`?.`, `if (prevBtn)`, `if (!dotsContainer)`). The arrows, the dot container and the track's parent are assumed present.
- The card list is fixed when the carousel mounts (script.js:51), so the card count lives in the state and a resize carries only the new widths.
- Link clicks are not a state transition, since cancelling a click changes only the browser's navigation. The guard is a query on the state, and browser event order (mouseup/touchend before click) is stated in the lemmas' shape, not modelled.
- `releasedBy` is a state field that script.js does not have. Only the corrected click guard reads it. A gesture's release sets it and every other event clears it, which stands for "the click arrives right after the release".
- Gesture.GestureDisplacement: stated for gestures begun with the two offsets equal, which holds for every press outside a gesture under the invariant. A second press during a gesture keeps the earlier move's live offset, and the lemma says nothing about that case.

## Findings

| source | as written | input that shows it | evidently intended | confidence | as-written member | corrected member |
|---|---|---|---|---|---|---|
| script.js:160-166 | The link guard compares `currentTranslate` with `prevTranslate`. `dragEnd` runs on mouseup/touchend, before the browser delivers the click, and its `updateCarousel` sets the two equal. So by the time the click handler runs, the difference is always 0. | Five cards at index 0: press at X=500, move to X=400, release, click a link in a card. The index advances to 1 and the click is not cancelled. | Cancel the click when the gesture that just ended moved the track by more than 5 px, so that a drag does not also follow a link. | high; not executed | `Gesture.ReleasedClickNeverPrevented` | `Gesture.ReleasedClickPreventedIffDragged` |
