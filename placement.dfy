/**
 * Placement of the friend image over the background: the ranges the two
 * position sliders get once both images are filtered, and the positions the
 * four alignment buttons snap to.  Positions are the friend's top-left
 * corner relative to the background's, in unscaled pixels of the
 * off-screen canvases.
 */
module Placement {

  /** getCompositeSize: the sizes of the two filtered off-screen canvases. */
  datatype CompositeSize = CompositeSize(backgroundWidth: int, backgroundHeight: int,
                                         friendWidth: int, friendHeight: int)

  /** A slider's closed range of integer positions. */
  datatype Range = Range(min: int, max: int) {
    predicate Contains(x: int) {
      min <= x <= max
    }
  }

  /**
   * The range of one position slider: from the configured minimum less the
   * friend's extent up to the background's extent, so that a friend may
   * stick out past either edge.
   */
  function PositionRange(cfgMin: int, friendExtent: int, backgroundExtent: int): (r: Range)
    ensures forall x :: r.Contains(x) <==> cfgMin <= x + friendExtent && x <= backgroundExtent
  {
    Range(cfgMin - friendExtent, backgroundExtent)
  }

  /** Two closed spans of one axis share at least one point. */
  predicate SpansMeet(lo1: int, hi1: int, lo2: int, hi2: int) {
    lo1 <= hi2 && lo2 <= hi1
  }

  /**
   * With a configured minimum of 0, a position is in range exactly when the
   * friend's span still meets the background's span on that axis.
   */
  lemma RangeKeepsContact(friendExtent: int, backgroundExtent: int, x: int)
    ensures PositionRange(0, friendExtent, backgroundExtent).Contains(x) <==>
            SpansMeet(x, x + friendExtent, 0, backgroundExtent)
  {
  }

  /** One slider range per axis. */
  datatype Ranges = Ranges(x: Range, y: Range)

  /**
   * The slider ranges filteringProcess sets after a filter run: only when
   * both images are present (None: the sliders keep their ranges).
   */
  function FilteringRanges(bothSpecified: bool, cfgMinX: int, cfgMinY: int, size: CompositeSize): (r: Option<Ranges>)
    ensures r.Some? <==> bothSpecified
    ensures r.Some? ==> r.value.x == PositionRange(cfgMinX, size.friendWidth, size.backgroundWidth)
                        && r.value.y == PositionRange(cfgMinY, size.friendHeight, size.backgroundHeight)
  {
    if bothSpecified then
      Some(Ranges(PositionRange(cfgMinX, size.friendWidth, size.backgroundWidth),
                  PositionRange(cfgMinY, size.friendHeight, size.backgroundHeight)))
    else None
  }

  datatype Option<T> = None | Some(value: T)

  /** The four alignment buttons. */
  datatype Align = Left | Right | Top | Bottom

  datatype Axis = Horizontal | Vertical

  /** The slider an alignment button sets and the value it sets it to. */
  datatype Snap = Snap(axis: Axis, position: int)

  /**
   * The alignment handlers: left and top put the friend's near edge on the
   * background's; right and bottom put its far edge on the background's far
   * edge, measured with the unscaled sizes getCompositeSize returns.
   */
  function AlignTarget(a: Align, size: CompositeSize): (r: Snap)
    ensures r.axis == Horizontal <==> a == Left || a == Right
    ensures a == Left || a == Top ==> r.position == 0
    ensures a == Right ==> r.position + size.friendWidth == size.backgroundWidth
    ensures a == Bottom ==> r.position + size.friendHeight == size.backgroundHeight
  {
    match a
    case Left => Snap(Horizontal, 0)
    case Right => Snap(Horizontal, size.backgroundWidth - size.friendWidth)
    case Top => Snap(Vertical, 0)
    case Bottom => Snap(Vertical, size.backgroundHeight - size.friendHeight)
  }

  /** A snap right or down goes negative exactly when the friend is the larger image on that axis. */
  lemma SnapNegative(a: Align, size: CompositeSize)
    requires a == Right || a == Bottom
    ensures AlignTarget(a, size).position < 0 <==>
      if a == Right then size.friendWidth > size.backgroundWidth else size.friendHeight > size.backgroundHeight
  {
  }

  /**
   * Every alignment target lies inside the range its slider was given after
   * filtering, provided the sizes are not negative and the configured
   * minimum is at most 0.
   */
  lemma AlignWithinRange(a: Align, cfgMinX: int, cfgMinY: int, size: CompositeSize)
    requires size.backgroundWidth >= 0 && size.backgroundHeight >= 0
    requires size.friendWidth >= 0 && size.friendHeight >= 0
    requires cfgMinX <= 0 && cfgMinY <= 0
    ensures var r := FilteringRanges(true, cfgMinX, cfgMinY, size).value;
      var snap := AlignTarget(a, size);
      if snap.axis == Horizontal then r.x.Contains(snap.position) else r.y.Contains(snap.position)
  {
  }

  /** A 200-pixel-wide friend over an 800-pixel-wide background, with a configured minimum of 0. */
  lemma RangeAndSnapExample()
    ensures PositionRange(0, 200, 800) == Range(-200, 800)
    ensures AlignTarget(Right, CompositeSize(800, 600, 200, 150)) == Snap(Horizontal, 600)
  {
  }
}
