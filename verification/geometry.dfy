/** Layout arithmetic of the carousel: how many cards fit in the container,
    the last resting index, and how many indicator dots exist.

    All widths are the integer `offsetWidth`s the page reports, so they are
    non-negative and JavaScript's `Math.floor` of their quotient is Dafny's
    `/` on naturals.
 */
module Geometry {
  import opened CarouselState

  /** `v` cards, with a gap between each neighbouring pair, fit in a container
      of width `containerWidth` (zero cards always fit). */
  predicate Fits(v: nat, cardWidth: nat, containerWidth: nat)
  {
    v * cardWidth + (v - 1) * Gap <= containerWidth
  }

  /** Number of whole cards visible in the container. It is NOT clamped to at
      least one: a container narrower than one card gives 0. */
  function VisibleCards(cardWidth: nat, containerWidth: nat): (v: nat)
    ensures Fits(v, cardWidth, containerWidth)
    ensures !Fits(v + 1, cardWidth, containerWidth)
  {
    var w := cardWidth + Gap;
    var q := (containerWidth + Gap) / w;
    assert q * w <= containerWidth + Gap < q * w + w;
    q
  }

  /** Fewer cards fit whenever more cards fit. */
  lemma {:induction false} FitsDownward(u: nat, v: nat, cardWidth: nat, containerWidth: nat)
    requires u <= v && Fits(v, cardWidth, containerWidth)
    ensures Fits(u, cardWidth, containerWidth)
  {
    var w := cardWidth + Gap;
    assert (v - u) * w >= 0;
    assert v * w == u * w + (v - u) * w;
  }

  /** VisibleCards is the largest number of cards that fits: `v` cards fit
      exactly when `v` is at most VisibleCards. */
  lemma VisibleCardsIsLargestFit(v: nat, cardWidth: nat, containerWidth: nat)
    ensures Fits(v, cardWidth, containerWidth) <==> v <= VisibleCards(cardWidth, containerWidth)
  {
    var q := VisibleCards(cardWidth, containerWidth);
    if v <= q {
      FitsDownward(v, q, cardWidth, containerWidth);
    } else if Fits(v, cardWidth, containerWidth) {
      FitsDownward(q + 1, v, cardWidth, containerWidth);
      assert false;
    }
  }

  /** No card is visible exactly when the container is narrower than one card. */
  lemma NoVisibleCardIffNarrowContainer(cardWidth: nat, containerWidth: nat)
    ensures VisibleCards(cardWidth, containerWidth) == 0 <==> containerWidth < cardWidth
  {
    VisibleCardsIsLargestFit(1, cardWidth, containerWidth);
  }

  /** Last resting index: the window of `visible` cards starting at it ends at
      the last card, or it is 0 when all cards are visible at once. */
  function MaxIndex(cardCount: nat, visible: nat): (m: nat)
    ensures m + visible >= cardCount
    ensures m == 0 || m + visible == cardCount
  {
    if cardCount - visible > 0 then cardCount - visible else 0
  }

  /** MaxIndex is the least index from which the visible window reaches the
      last card. */
  lemma MaxIndexIsLeastCovering(j: nat, cardCount: nat, visible: nat)
    ensures j + visible >= cardCount <==> j >= MaxIndex(cardCount, visible)
  {
  }

  /** Number of indicator dots built for a layout; one per resting index
      0..MaxIndex. */
  function DotCount(cardCount: nat, visible: nat): (n: nat)
    ensures n == MaxIndex(cardCount, visible) + 1
    ensures n >= 1
  {
    if cardCount - visible + 1 > 1 then cardCount - visible + 1 else 1
  }
}
